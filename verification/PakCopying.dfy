/** Copying one payload into the scratch file of a rebuild. */
module PakCopying {
  import opened ByteStrings
  import opened Outcomes
  import opened PakFormat
  import opened PakStates
  import opened Disks
  import Crc32

  const COPY_CHUNK := 65536

  /** Same handles, on the same files. */
  ghost predicate SameHandles(c0: map<Handle, Cursor>, c1: map<Handle, Cursor>) {
    c0.Keys == c1.Keys && forall h <- c0 :: c1[h].path == c0[h].path
  }

  /** Same handles, and only h may have moved in its file. */
  ghost predicate OnlyMoved(c0: map<Handle, Cursor>, c1: map<Handle, Cursor>, h: Handle) {
    SameHandles(c0, c1) && forall g <- c0 :: g != h ==> c1[g] == c0[g]
  }

  lemma OnlyMovedChains(c0: map<Handle, Cursor>, c1: map<Handle, Cursor>, c2: map<Handle, Cursor>, h: Handle)
    requires OnlyMoved(c0, c1, h) && OnlyMoved(c1, c2, h)
    ensures OnlyMoved(c0, c2, h)
  {}

  lemma NothingMoved(c: map<Handle, Cursor>, h: Handle)
    ensures OnlyMoved(c, c, h)
  {}

  lemma JustMoved(c0: map<Handle, Cursor>, c1: map<Handle, Cursor>, h: Handle)
    requires c0.Keys == c1.Keys && forall g <- c1 :: c1[g].path == c0[g].path && (g != h ==> c1[g] == c0[g])
    ensures OnlyMoved(c0, c1, h)
  {}

  lemma OnlyMovedStays(c0: map<Handle, Cursor>, c1: map<Handle, Cursor>, h: Handle)
    requires OnlyMoved(c0, c1, h) && h in c0
    ensures h in c1 && c1[h].path == c0[h].path
  {}

  /** Between the two moments no file but p ever changed, and p only in its header or from `end` on. */
  ghost predicate Confined(files0: Files, log0: seq<Files>, files1: Files, log1: seq<Files>, p: Path, end: nat) {
    && Beyond(files0, files1, p, end)
    && log0 <= log1
    && forall i :: |log0| <= i < |log1| ==> Beyond(files0, log1[i], p, end)
  }

  lemma ConfinedChains(f0: Files, l0: seq<Files>, f1: Files, l1: seq<Files>, f2: Files, l2: seq<Files>, p: Path,
                       end: nat)
    requires Confined(f0, l0, f1, l1, p, end) && Confined(f1, l1, f2, l2, p, end)
    ensures Confined(f0, l0, f2, l2, p, end)
  {
    forall i | |l0| <= i < |l2| ensures Beyond(f0, l2[i], p, end) {
      if i < |l1| {
        assert l2[i] == l1[i];
      } else {
        BeyondChains(f0, f1, l2[i], p, end);
      }
    }
    BeyondChains(f0, f1, f2, p, end);
  }

  /** Writes behind the payloads or in the header leave every entry its bytes, at every moment. */
  lemma ConfinedKeepsItems(fmt: Format, rows: seq<Row>, f0: Files, l0: seq<Files>, f1: Files, l1: seq<Files>, p: Path,
                           end: nat)
    requires Sound(fmt, rows, end, f0, p) && !AnyStaged(rows) && Confined(f0, l0, f1, l1, p, end)
    ensures forall i :: |l0| <= i < |l1| ==> Items(l1[i], p, rows) == Items(f0, p, rows)
  {
    hide Sound, Items;
    forall i | |l0| <= i < |l1| ensures Items(l1[i], p, rows) == Items(f0, p, rows) {
      BeyondKeepsItems(fmt, rows, end, f0, l1[i], p);
    }
  }

  lemma BeyondChains(f0: Files, f1: Files, f2: Files, p: Path, end: nat)
    requires Beyond(f0, f1, p, end) && Beyond(f1, f2, p, end)
    ensures Beyond(f0, f2, p, end)
  {}

  /** Where a run of writes goes: into a file that held `base`, from position `at` on, sparing what
      lies between the header and `end`. */
  datatype Target = Target(base: seq<byte>, at: nat, end: nat)

  /** The scratch file of a rebuild: empty, with room for the header. */
  const SCRATCH := Target([], HEADER_SIZE, 0)

  /** The bytes written so far are in place, and h is behind them. */
  ghost predicate Holding(files: Files, cursors: map<Handle, Cursor>, h: Handle, t: Target, done: seq<byte>) {
    && h in cursors && cursors[h].path in files
    && cursors[h].pos == t.at + |done|
    && files[cursors[h].path] == Splice(t.base, t.at, done)
  }

  /** p holds the file that was there with some first part of `all` written into it. */
  ghost predicate Filling(files: Files, p: Path, t: Target, all: seq<byte>) {
    p in files && exists n :: 0 <= n <= |all| && files[p] == Splice(t.base, t.at, all[..n])
  }

  /** And so it was at every moment in between. */
  ghost predicate Filled(files1: Files, log0: seq<Files>, log1: seq<Files>, p: Path, t: Target, all: seq<byte>) {
    Filling(files1, p, t, all) && log0 <= log1 && forall i :: |log0| <= i < |log1| ==> Filling(log1[i], p, t, all)
  }

  lemma FillingAt(files: Files, p: Path, t: Target, done: seq<byte>, all: seq<byte>)
    requires p in files && files[p] == Splice(t.base, t.at, done) && done <= all
    ensures Filling(files, p, t, all)
  {
    assert all[..|done|] == done;
  }

  lemma FillingMore(files: Files, p: Path, t: Target, all: seq<byte>, more: seq<byte>)
    requires Filling(files, p, t, all) && all <= more
    ensures Filling(files, p, t, more)
  {
    var n :| 0 <= n <= |all| && files[p] == Splice(t.base, t.at, all[..n]);
    assert more[..n] == all[..n];
  }

  lemma FilledChains(l0: seq<Files>, f1: Files, l1: seq<Files>, f2: Files, l2: seq<Files>, p: Path, t: Target,
                     all: seq<byte>, more: seq<byte>)
    requires Filled(f1, l0, l1, p, t, all) && Filled(f2, l1, l2, p, t, more) && all <= more
    ensures Filled(f2, l0, l2, p, t, more)
  {
    hide Filling;
    forall i | |l0| <= i < |l2| ensures Filling(l2[i], p, t, more) {
      if i < |l1| {
        assert l2[i] == l1[i];
        FillingMore(l1[i], p, t, all, more);
      }
    }
  }

  lemma NothingFilled(files: Files, log: seq<Files>, cursors: map<Handle, Cursor>, h: Handle, t: Target,
                      done: seq<byte>)
    requires Holding(files, cursors, h, t, done)
    ensures Filled(files, log, log, cursors[h].path, t, done)
  {
    FillingAt(files, cursors[h].path, t, done, done);
  }

  /** A first part of `body`, `left`, has been written behind `end`; at every moment in between it was
      some first part of it, and nothing else has changed. */
  ghost predicate Poured(f0: Files, l0: seq<Files>, f1: Files, l1: seq<Files>, p: Path, end: nat, body: seq<byte>,
                         left: seq<byte>)
  {
    && Confined(f0, l0, f1, l1, p, end) && p in f0 && left <= body
    && f1 == f0[p := Splice(f0[p], end, left)]
    && forall i :: |l0| <= i < |l1| ==> Filling(l1[i], p, Target(f0[p], end, end), body)
  }

  lemma NothingPoured(files: Files, log: seq<Files>, p: Path, end: nat, body: seq<byte>)
    requires p in files
    ensures Poured(files, log, files, log, p, end, body, [])
  {
    assert files[p := files[p]] == files;
  }

  /** What filling the archive's file behind the payloads leaves. */
  lemma FilledIsPoured(f0: Files, l0: seq<Files>, f1: Files, l1: seq<Files>, p: Path, end: nat, body: seq<byte>)
    returns (left: seq<byte>)
    requires Confined(f0, l0, f1, l1, p, end) && p in f0 && Filled(f1, l0, l1, p, Target(f0[p], end, end), body)
    ensures Poured(f0, l0, f1, l1, p, end, body, left)
    ensures f1[p] == Splice(f0[p], end, body) ==> left == body
  {
    hide Splice;
    if f1[p] == Splice(f0[p], end, body) {
      left := body;
    } else {
      var n :| 0 <= n <= |body| && f1[p] == Splice(f0[p], end, body[..n]);
      left := body[..n];
    }
  }

  lemma PouredIsConfined(f0: Files, l0: seq<Files>, f1: Files, l1: seq<Files>, p: Path, end: nat, body: seq<byte>,
                         left: seq<byte>)
    requires Poured(f0, l0, f1, l1, p, end, body, left)
    ensures Confined(f0, l0, f1, l1, p, end)
  {}

  /** The part of a file from a place on, up to n bytes. */
  function Available(file: seq<byte>, from: nat, n: nat): (s: seq<byte>)
    ensures |s| <= n && (from + n <= |file| ==> s == Slice(file, from, n))
  {
    if from <= |file| then file[from..Min(from + n, |file|)] else []
  }

  method Append(disk: Disk, h: Handle, data: seq<byte>, ghost t: Target, ghost done: seq<byte>) returns (ok: bool)
    requires disk.Valid() && Holding(disk.files, disk.cursors, h, t, done)
    requires t.end <= t.at || t.at + |done| + |data| <= HEADER_SIZE
    modifies disk`cursors, disk`files, disk`log, disk`trouble
    ensures disk.Valid() && OnlyMoved(old(disk.cursors), disk.cursors, h) && (old(disk.trouble) ==> disk.trouble)
    ensures Confined(old(disk.files), old(disk.log), disk.files, disk.log, disk.cursors[h].path, t.end)
    ensures Filled(disk.files, old(disk.log), disk.log, disk.cursors[h].path, t, done + data)
    ensures !ok ==> disk.trouble
    ensures ok ==> Holding(disk.files, disk.cursors, h, t, done + data)
  {
    hide Splice, Filling;
    ghost var p := disk.cursors[h].path;
    ghost var before := disk.files;
    ghost var n;
    ok, n := disk.Write(h, data);
    SpliceBeyond(before, p, t.end, before, t.at + |done|, data[..n]);
    SpliceTwice(t.base, t.at, done, data[..n]);
    assert done + data[..n] <= done + data;
    FillingAt(disk.files, p, t, done + data[..n], done + data);
    if ok {
      assert data[..n] == data;
    }
  }

  /** Streams n bytes from the position of `from` to `to`; the checksum of
      what was streamed continues `crc`. */
  method Stream(disk: Disk, from: Handle, n: nat, to: Handle, ghost t: Target, ghost done: seq<byte>)
    returns (ok: bool, crc: bv32)
    requires disk.Valid() && disk.IsOpen(from) && Holding(disk.files, disk.cursors, to, t, done)
    requires from != to && disk.cursors[from].path != disk.cursors[to].path && t.end <= t.at
    modifies disk`cursors, disk`files, disk`log, disk`trouble
    ensures disk.Valid() && SameHandles(old(disk.cursors), disk.cursors) && (old(disk.trouble) ==> disk.trouble)
    ensures forall g <- disk.cursors :: g != from && g != to ==> disk.cursors[g] == old(disk.cursors)[g]
    ensures Confined(old(disk.files), old(disk.log), disk.files, disk.log, disk.cursors[to].path, t.end)
    ensures var c := old(disk.cursors)[from];
            var body := Slice(old(disk.files)[c.path], c.pos, n);
            && (ok ==>
                  |body| == n && Holding(disk.files, disk.cursors, to, t, done + body) && crc == Crc32.Crc(0, body))
            && (!ok ==> disk.trouble || c.pos + n > |old(disk.files)[c.path]|)
            && Filled(disk.files, old(disk.log), disk.log, disk.cursors[to].path, t,
                      done + Available(old(disk.files)[c.path], c.pos, n))
  {
    hide Crc32.Crc, Splice, Filled, Confined, Available, Slice;
    NothingFilled(disk.files, disk.log, disk.cursors, to, t, done);
    NothingSliced(disk.files[disk.cursors[from].path], disk.cursors[from].pos);
    ghost var c := disk.cursors[from];
    NothingWritten(disk.files, disk.log, disk.cursors[to].path, t.end);
    ghost var scratch := disk.cursors[to].path;
    ghost var source := disk.files[c.path];
    ghost var more: seq<byte> := [];
    var remaining := n;
    crc := 0;
    Crc32.EmptyMessage(0);
    assert done + more == done;
    ok := true;
    while remaining > 0
      invariant disk.Valid() && SameHandles(old(disk.cursors), disk.cursors) && (old(disk.trouble) ==> disk.trouble)
      invariant 0 <= remaining <= n
      invariant forall g <- disk.cursors :: g != from && g != to ==> disk.cursors[g] == old(disk.cursors)[g]
      invariant Confined(old(disk.files), old(disk.log), disk.files, disk.log, scratch, t.end)
      invariant disk.cursors[from].pos == c.pos + |more| && |more| == n - remaining
      invariant Slice(source, c.pos, |more|) == more
      invariant Holding(disk.files, disk.cursors, to, t, done + more)
      invariant Filled(disk.files, old(disk.log), disk.log, scratch, t, done + more)
      invariant c.path in disk.files && disk.files[c.path] == source
      invariant crc == Crc32.Crc(0, more)
    {
      var want := Min(remaining, COPY_CHUNK);
      ghost var f0, l0 := disk.files, disk.log;
      ghost var chunk;
      ok, crc, chunk := StreamChunk(disk, from, want, to, t, done + more, crc);
      ConfinedOthers(f0, l0, disk.files, disk.log, scratch, t.end, c.path);
      ConfinedChains(old(disk.files), old(disk.log), f0, l0, disk.files, disk.log, scratch, t.end);
      StillAvailable(source, c.pos, n, more, chunk);
      FilledOn(old(disk.log), f0, l0, disk.files, disk.log, scratch, t, done, more, chunk, Available(source, c.pos, n));
      if !ok { return false, crc; }
      Crc32.CrcChains(0, more, chunk);
      SliceGrows(source, c.pos, more, chunk);
      assert done + more + chunk == done + (more + chunk);
      more := more + chunk;
      remaining := remaining - want;
    }
    StillAvailable(source, c.pos, n, more, []);
    FilledToo(disk.files, old(disk.log), disk.log, scratch, t, done, more, Available(source, c.pos, n));
  }

  lemma NothingSliced(file: seq<byte>, at: nat)
    ensures Slice(file, at, 0) == []
  {}

  lemma ConfinedOthers(f0: Files, l0: seq<Files>, f1: Files, l1: seq<Files>, p: Path, end: nat, q: Path)
    requires Confined(f0, l0, f1, l1, p, end) && q != p && q in f0
    ensures q in f1 && f1[q] == f0[q]
  {}

  lemma StillAvailable(file: seq<byte>, from: nat, n: nat, a: seq<byte>, b: seq<byte>)
    requires Slice(file, from, |a|) == a && |a| + |b| <= n
    requires b == [] || (from + |a| + |b| <= |file| && b == Slice(file, from + |a|, |b|))
    ensures a + b <= Available(file, from, n)
  {
    if b == [] { assert a + b == a; }
  }

  lemma FilledOn(l0: seq<Files>, f1: Files, l1: seq<Files>, f2: Files, l2: seq<Files>, p: Path, t: Target,
                 done: seq<byte>, a: seq<byte>, b: seq<byte>, all: seq<byte>)
    requires Filled(f1, l0, l1, p, t, done + a) && Filled(f2, l1, l2, p, t, done + a + b) && a + b <= all
    ensures Filled(f2, l0, l2, p, t, done + (a + b)) && Filled(f2, l0, l2, p, t, done + all)
  {
    hide Filled;
    assert done + a + b == done + (a + b);
    FilledChains(l0, f1, l1, f2, l2, p, t, done + a, done + a + b);
    FilledToo(f2, l0, l2, p, t, done, a + b, all);
  }

  lemma NothingWritten(files: Files, log: seq<Files>, p: Path, end: nat)
    requires p in files
    ensures Confined(files, log, files, log, p, end)
  {}

  lemma FilledToo(f: Files, l0: seq<Files>, l1: seq<Files>, p: Path, t: Target, done: seq<byte>, a: seq<byte>,
                  b: seq<byte>)
    requires Filled(f, l0, l1, p, t, done + a) && a <= b
    ensures Filled(f, l0, l1, p, t, done + b)
  {
    hide Filling;
    assert done + a <= done + b;
    FillingMore(f, p, t, done + a, done + b);
    forall i | |l0| <= i < |l1| ensures Filling(l1[i], p, t, done + b) {
      FillingMore(l1[i], p, t, done + a, done + b);
    }
  }

  lemma SliceGrows(file: seq<byte>, at: nat, a: seq<byte>, b: seq<byte>)
    requires Slice(file, at, |a|) == a && Slice(file, at + |a|, |b|) == b
    ensures Slice(file, at, |a| + |b|) == a + b
  {
    if b == [] { assert a + b == a; }
    if a == [] { assert a + b == b; }
  }

  method StreamChunk(disk: Disk, from: Handle, want: nat, to: Handle, ghost t: Target, ghost done: seq<byte>,
                     crc0: bv32)
    returns (ok: bool, crc: bv32, ghost chunk: seq<byte>)
    requires disk.Valid() && disk.IsOpen(from) && Holding(disk.files, disk.cursors, to, t, done)
    requires from != to && disk.cursors[from].path != disk.cursors[to].path && want > 0 && t.end <= t.at
    modifies disk`cursors, disk`files, disk`log, disk`trouble
    ensures disk.Valid() && SameHandles(old(disk.cursors), disk.cursors) && (old(disk.trouble) ==> disk.trouble)
    ensures forall g <- disk.cursors :: g != from && g != to ==> disk.cursors[g] == old(disk.cursors)[g]
    ensures Confined(old(disk.files), old(disk.log), disk.files, disk.log, disk.cursors[to].path, t.end)
    ensures var c := old(disk.cursors)[from];
            && (ok ==>
                  && |chunk| == want && chunk == Slice(old(disk.files)[c.path], c.pos, want)
                  && disk.cursors[from].pos == c.pos + want
                  && Holding(disk.files, disk.cursors, to, t, done + chunk) && crc == Crc32.Crc(crc0, chunk))
            && (!ok ==> disk.trouble || c.pos + want > |old(disk.files)[c.path]|)
            && |chunk| <= want
            && (chunk == []
                || (c.pos + |chunk| <= |old(disk.files)[c.path]|
                    && chunk == Slice(old(disk.files)[c.path], c.pos, |chunk|)))
    ensures Filled(disk.files, old(disk.log), disk.log, disk.cursors[to].path, t, done + chunk)
  {
    hide Crc32.Crc, Splice, Filled;
    crc := crc0;
    NothingFilled(disk.files, disk.log, disk.cursors, to, t, done);
    ghost var log := disk.log;
    var data := disk.Read(from, want);
    chunk := data;
    if |data| != want {
      assert done + [] == done;
      FilledToo(disk.files, log, disk.log, disk.cursors[to].path, t, done, [], chunk);
      return false, crc, chunk;
    }
    ok := Append(disk, to, data, t, done);
    crc := Crc32.Crc(crc, data);
  }

  /** Reads to the end of the file for its checksum, and remembers the file's name. */
  method ScanCrc(disk: Disk, h: Handle) returns (s: Status, crc: bv32)
    requires disk.Valid() && disk.IsOpen(h) && disk.cursors[h].pos == 0
    modifies disk`cursors, disk`trouble
    ensures disk.Valid() && OnlyMoved(old(disk.cursors), disk.cursors, h) && (old(disk.trouble) ==> disk.trouble)
    ensures s != Ok ==> disk.trouble && s in {IoError, NoMemory}
    ensures s == Ok ==> crc == Crc32.Crc(0, disk.files[disk.cursors[h].path])
  {
    hide Crc32.Crc;
    ghost var file := disk.files[disk.cursors[h].path];
    var scanned := 0;
    crc := 0;
    Crc32.EmptyMessage(0);
    while true
      invariant disk.Valid() && OnlyMoved(old(disk.cursors), disk.cursors, h) && (old(disk.trouble) ==> disk.trouble)
      invariant disk.cursors[h].pos == scanned && 0 <= scanned <= |file| && crc == Crc32.Crc(0, file[..scanned])
      decreases |file| - scanned
    {
      var data := disk.Read(h, COPY_CHUNK);
      if data == [] { break; }
      assert file[..scanned + |data|] == file[..scanned] + data;
      Crc32.CrcChains(0, file[..scanned], data);
      crc := Crc32.Crc(crc, data);
      scanned := scanned + |data|;
    }
    // A read that gave nothing before the end of the file was a failed one.
    if scanned != |disk.files[disk.cursors[h].path]| { return IoError, crc; }
    assert file[..scanned] == file;
    var haveMemory := disk.Works();
    s := if haveMemory then Ok else NoMemory;
  }

  /** The payload of a row is what was promised: it fills the recorded extent, and a source file
      still has the size and checksum it had when it was added. */
  ghost predicate Trustworthy(files: Files, path: Path, r: Row) {
    && |Body(files, path, r)| == r.Extent()
    && (r.source.Some? && r.data.None? ==> Crc32.Crc(0, Body(files, path, r)) == r.crc)
  }

  /** Streams a staged source file, after checking that it is still the regular file of the size
      recorded, and while checking that it still has the checksum recorded. */
  method CopySource(disk: Disk, r: Row, to: Handle, ghost payload: seq<byte>) returns (s: Status)
    requires disk.Valid() && Holding(disk.files, disk.cursors, to, SCRATCH, payload)
    requires r.source.Some? && r.source.value in disk.files && r.source.value != disk.cursors[to].path && !r.compressed
    modifies disk
    ensures disk.Valid() && SameHandles(old(disk.cursors), disk.cursors) && (old(disk.trouble) ==> disk.trouble)
    ensures Confined(old(disk.files), old(disk.log), disk.files, disk.log, disk.cursors[to].path, SCRATCH.end)
    ensures var body := old(disk.files)[r.source.value];
            var same := |body| == r.length && Crc32.Crc(0, body) == r.crc;
            && (s == Ok ==> same && Holding(disk.files, disk.cursors, to, SCRATCH, payload + body))
            && (s != Ok ==> (disk.trouble && s.Fault()) || (s == FormatError && !same))
  {
    hide Crc32.Crc, Splice, Crc32.Xor;
    var path := r.source.value;
    ghost var body := disk.files[path];
    var noLink := disk.Works();
    if !noLink { return UnsafeName; }
    var statWorks := disk.Works();
    if !statWorks { return IoError; }
    var isRegular := disk.Works();
    if !isRegular { return UnsafeName; }
    if |disk.files[path]| != r.length { return FormatError; }
    var src := disk.Open(path);
    if src.None? { return IoError; }
    var ok, crc := Stream(disk, src.value, r.length, to, SCRATCH, payload);
    var _ := disk.Close(src.value);
    if !ok { return IoError; }
    assert Slice(body, 0, r.length) == body;
    return if crc == r.crc then Ok else FormatError;
  }

  /** Copies one payload to the end of the scratch file and reports where it starts. */
  method CopyBetweenPaks(disk: Disk, fmt: Format, path: Path, r: Row, ghost end: nat, from: Handle, to: Handle,
                         ghost payload: seq<byte>)
    returns (s: Status, at: nat)
    requires disk.Valid() && disk.IsOpen(from) && disk.cursors[from].path == path
    requires Holding(disk.files, disk.cursors, to, SCRATCH, payload) && disk.cursors[to].path != path
    requires RowSound(fmt, r, end, disk.files, path) && end <= |disk.files[path]|
    requires r.source != Some(disk.cursors[to].path)
    modifies disk
    ensures disk.Valid() && SameHandles(old(disk.cursors), disk.cursors) && (old(disk.trouble) ==> disk.trouble)
    ensures Confined(old(disk.files), old(disk.log), disk.files, disk.log, disk.cursors[to].path, SCRATCH.end)
    ensures s != Ok ==>
      || (disk.trouble && s.Fault()) || (s == LimitError && HEADER_SIZE + |payload| > U32_MAX)
      || (s == FormatError && !Trustworthy(old(disk.files), path, r))
    ensures s == Ok ==>
      && at == HEADER_SIZE + |payload| && at <= U32_MAX
      && Trustworthy(old(disk.files), path, r)
      && Holding(disk.files, disk.cursors, to, SCRATCH, payload + Body(old(disk.files), path, r))
  {
    hide Crc32.Crc, Splice, Fits;
    at := 0;
    var tell := disk.Tell(to);
    if tell.None? { return IoError, at; }
    if tell.value > U32_MAX { return LimitError, at; }
    at := tell.value;
    if r.source.Some? {
      s := CopySource(disk, r, to, payload);
      return s, at;
    }
    if r.data.Some? {
      var ok := Append(disk, to, r.data.value, SCRATCH, payload);
      return if ok then Ok else IoError, at;
    }
    var ok := disk.Seek(from, r.offset);
    if !ok { return IoError, at; }
    if r.Extent() == 0 {
      assert payload + [] == payload;
      return Ok, at;
    }
    var haveBuffer := disk.Works();
    if !haveBuffer { return NoMemory, at; }
    var crc;
    ok, crc := Stream(disk, from, r.Extent(), to, SCRATCH, payload);
    return if ok then Ok else IoError, at;
  }

  /** Opens a source file, once it is known to be a regular file, and measures it. */
  method OpenSource(disk: Disk, source: Path) returns (s: Status, src: Handle, size: nat)
    requires disk.Valid()
    modifies disk`cursors, disk`next, disk`trouble
    ensures disk.Valid() && (old(disk.trouble) ==> disk.trouble)
    ensures s == Ok ==>
      && source in disk.files && size == |disk.files[source]| && size <= U32_MAX
      && src !in old(disk.cursors) && disk.cursors == old(disk.cursors)[src := Cursor(source, 0)]
    ensures s != Ok ==>
      && disk.cursors == old(disk.cursors)
      && (s == LimitError ==> source in disk.files && |disk.files[source]| > U32_MAX)
      && (s != LimitError ==> (disk.trouble || source !in disk.files) && s in {UnsafeName, IoError})
  {
    src, size := 0, 0;
    var noLink := disk.Works();
    if !noLink { return UnsafeName, src, size; }
    if source !in disk.files { return IoError, src, size; }
    var isRegular := disk.Works();
    if !isRegular { return UnsafeName, src, size; }
    var h := disk.Open(source);
    if h.None? { return IoError, src, size; }
    src, size := h.value, |disk.files[source]|;
    var sizeKnown := disk.Works();
    if !sizeKnown || size > U32_MAX {
      var _ := disk.Close(src);
      return if sizeKnown then LimitError else IoError, src, size;
    }
    return Ok, src, size;
  }
}
