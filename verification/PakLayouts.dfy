/** The layout a rebuild gives an archive: payloads packed one after the other, shared bytes once. */
module PakLayouts {
  import opened ByteStrings
  import opened PakFormat
  import opened PakSharing
  import opened PakStates
  import opened PakCopying
  import opened EntryLists
  import opened Disks
  import Crc32

  /** The summed extents of the first n rows that own their bytes. */
  ghost function OwnedBytes(rows: seq<Row>, owner: seq<nat>, n: nat): nat
    requires n <= |rows| == |owner|
  {
    if n == 0 then 0 else OwnedBytes(rows, owner, n - 1) + if owner[n - 1] == n - 1 then rows[n - 1].Extent() else 0
  }

  /** Row k's payload is at its new offset. */
  ghost predicate PlacedRow(files: Files, path: Path, r: Row, at: nat, payload: seq<byte>) {
    && HEADER_SIZE <= at <= U32_MAX && at + r.Extent() <= HEADER_SIZE + |payload|
    && Trustworthy(files, path, r)
    && payload[at - HEADER_SIZE..at - HEADER_SIZE + r.Extent()] == Body(files, path, r)
  }

  /** Each of the first n rows has its payload at its new offset. */
  ghost predicate AllPlaced(files: Files, path: Path, rows: seq<Row>, n: nat, offsets: seq<nat>, payload: seq<byte>)
    requires n <= |rows| == |offsets|
  {
    forall k :: 0 <= k < n ==> PlacedRow(files, path, rows[k], offsets[k], payload)
  }

  /** Each of the first n rows is where its owner is. */
  ghost predicate Follow(owner: seq<nat>, n: nat, offsets: seq<nat>)
    requires n <= |owner| == |offsets|
  {
    forall k {:trigger owner[k]} :: 0 <= k < n ==> owner[k] <= k && offsets[k] == offsets[owner[k]]
  }

  /** The owners among the first n rows lie one behind the other. */
  ghost predicate Apart(rows: seq<Row>, owner: seq<nat>, n: nat, offsets: seq<nat>)
    requires n <= |rows| == |owner| == |offsets|
  {
    forall a, b :: 0 <= a < b < n && owner[a] == a && owner[b] == b ==> offsets[a] + rows[a].Extent() <= offsets[b]
  }

  /** Where the first n rows have been placed. */
  ghost predicate Placed(files: Files, path: Path, rows: seq<Row>, owner: seq<nat>, n: nat, offsets: seq<nat>,
                         payload: seq<byte>)
    requires n <= |rows| == |owner|
  {
    && |offsets| == |rows|
    && AllPlaced(files, path, rows, n, offsets, payload)
    && Follow(owner, n, offsets)
    && Apart(rows, owner, n, offsets)
    && |payload| == OwnedBytes(rows, owner, n)
  }

  lemma PlacedInMore(files: Files, path: Path, r: Row, at: nat, payload: seq<byte>, more: seq<byte>)
    requires PlacedRow(files, path, r, at, payload)
    ensures PlacedRow(files, path, r, at, payload + more)
  {}

  lemma AllPlacedStep(files: Files, path: Path, rows: seq<Row>, n: nat, offsets: seq<nat>, payload: seq<byte>, at: nat,
                      more: seq<byte>)
    requires n < |rows| == |offsets| && AllPlaced(files, path, rows, n, offsets, payload)
    requires PlacedRow(files, path, rows[n], at, payload + more)
    ensures AllPlaced(files, path, rows, n + 1, offsets[n := at], payload + more)
  {
    hide PlacedRow;
    forall k | 0 <= k < n ensures PlacedRow(files, path, rows[k], offsets[k], payload + more) {
      PlacedInMore(files, path, rows[k], offsets[k], payload, more);
    }
  }

  lemma ApartStep(files: Files, path: Path, rows: seq<Row>, owner: seq<nat>, n: nat, offsets: seq<nat>,
                  payload: seq<byte>)
    requires n < |rows| == |owner| == |offsets|
    requires Apart(rows, owner, n, offsets) && AllPlaced(files, path, rows, n, offsets, payload)
    ensures Apart(rows, owner, n + 1, offsets[n := HEADER_SIZE + |payload|])
  {
    hide Trustworthy, Body;
    forall a | 0 <= a < n ensures offsets[a] + rows[a].Extent() <= HEADER_SIZE + |payload| {
      assert PlacedRow(files, path, rows[a], offsets[a], payload);
    }
  }

  /** A row that owns its bytes goes to the end. */
  lemma PlaceOwner(files: Files, path: Path, rows: seq<Row>, owner: seq<nat>, n: nat, offsets: seq<nat>,
                   payload: seq<byte>)
    requires n < |rows| == |owner| && Placed(files, path, rows, owner, n, offsets, payload)
    requires owner[n] == n && Trustworthy(files, path, rows[n]) && HEADER_SIZE + |payload| <= U32_MAX
    ensures Placed(files, path, rows, owner, n + 1, offsets[n := HEADER_SIZE + |payload|],
                   payload + Body(files, path, rows[n]))
  {
    hide AllPlaced, Apart, Body, Crc32.Crc;
    var body, at := Body(files, path, rows[n]), HEADER_SIZE + |payload|;
    assert (payload + body)[|payload|..] == body;
    AllPlacedStep(files, path, rows, n, offsets, payload, at, body);
    ApartStep(files, path, rows, owner, n, offsets, payload);
  }

  /** A row that shares bytes goes where its owner went. */
  lemma PlaceAlias(files: Files, path: Path, rows: seq<Row>, owner: seq<nat>, n: nat, offsets: seq<nat>,
                   payload: seq<byte>)
    requires n < |rows| && OwnerMap(rows, owner) && Placed(files, path, rows, owner, n, offsets, payload)
    requires owner[n] != n
    ensures owner[n] < n && Placed(files, path, rows, owner, n + 1, offsets[n := offsets[owner[n]]], payload)
  {
    hide AllPlaced, PlacedRow, IsOwner;
    OwnerMapIsExact(rows, owner, n, n);
    var o := owner[n];
    PlacedAlias(files, path, rows, owner, n, offsets, payload);
    assert payload + [] == payload;
    AllPlacedStep(files, path, rows, n, offsets, payload, offsets[o], []);
  }

  lemma PlacedAlias(files: Files, path: Path, rows: seq<Row>, owner: seq<nat>, n: nat, offsets: seq<nat>,
                    payload: seq<byte>)
    requires n < |rows| == |offsets| && OwnerMap(rows, owner) && owner[n] < n
    requires AllPlaced(files, path, rows, n, offsets, payload)
    ensures PlacedRow(files, path, rows[n], offsets[owner[n]], payload)
  {
    assert IsOwner(rows, n, owner[n]);
    assert PlacedRow(files, path, rows[owner[n]], offsets[owner[n]], payload);
  }

  /** Rows share bytes after a rebuild exactly as before it: aliases get one offset, and rows that do
      not alias get extents that do not overlap. */
  lemma SharingPreserved(files: Files, path: Path, rows: seq<Row>, owner: seq<nat>, offsets: seq<nat>,
                         payload: seq<byte>, i: nat, j: nat)
    requires OwnerMap(rows, owner) && Placed(files, path, rows, owner, |rows|, offsets, payload)
    requires i < j < |rows|
    ensures var a, b := rows[i], rows[j];
            var m, n := if a.compressed then a.packed else a.length, if b.compressed then b.packed else b.length;
            if !a.Staged() && !b.Staged() && a.offset == b.offset && m == n then offsets[i] == offsets[j]
            else offsets[i] + m <= offsets[j] || offsets[j] + n <= offsets[i]
  {
    OwnerMapIsExact(rows, owner, i, j);
    OwnerMapIsExact(rows, owner, j, i);
    var a, b := owner[i], owner[j];
    assert IsOwner(rows, i, a) && IsOwner(rows, j, b);
    assert rows[a].Extent() == rows[i].Extent() && rows[b].Extent() == rows[j].Extent();
  }

  // ----- The rebuilt archive means what the old one meant -----

  /** The image of a layout holds the payload behind the header. */
  lemma ImageHoldsPayload(fmt: Format, rows: seq<Row>, payload: seq<byte>)
    requires AllFit(fmt, rows) && (rows == [] ==> payload == [])
    requires HEADER_SIZE + |payload| + |DirBytes(fmt, rows)| <= U32_MAX
    ensures var end := HEADER_SIZE + |payload|;
            var f := Image(Splice([], HEADER_SIZE, payload), fmt, rows, end);
            |f| >= end && f[HEADER_SIZE..end] == payload
  {
    hide DirBytes, HeaderBytes, AllFit;
    var end, dir := HEADER_SIZE + |payload|, DirBytes(fmt, rows);
    EmptyDirectory(fmt, rows);
    var base := Splice([], HEADER_SIZE, payload);
    SpliceTwice([], HEADER_SIZE, payload, dir);
    var g := Splice(base, end, dir);
    var h := HeaderBytes(fmt, DirOffset(rows, end), |dir|);
    if payload + dir != [] {
      SpliceHere([], HEADER_SIZE, payload + dir);
      assert g[HEADER_SIZE..end] == g[HEADER_SIZE..end + |dir|][..|payload|] == payload;
      SpliceElsewhere(g, 0, h, HEADER_SIZE, end);
    }
  }

  /** The rows as they are once a rebuild has published them. */
  ghost function Rebuilt(rows: seq<Row>, offsets: seq<nat>): seq<Row>
    requires |rows| == |offsets|
  {
    Unstaged(WithOffsets(rows, offsets))
  }

  lemma SliceOfSlice(f: seq<byte>, from: nat, to: nat, a: nat, b: nat)
    requires from <= a <= b <= to <= |f|
    ensures f[from..to][a - from..b - from] == f[a..b]
  {
    var s := f[from..to];
    assert forall k :: 0 <= k < b - a ==> s[a - from..b - from][k] == f[a..b][k];
  }

  lemma RebuiltRow(fmt: Format, end0: nat, files0: Files, path: Path, r: Row, at: nat, payload: seq<byte>,
                   files1: Files)
    requires RowSound(fmt, r, end0, files0, path) && PlacedRow(files0, path, r, at, payload)
    requires path in files1 && |files1[path]| >= HEADER_SIZE + |payload|
    requires files1[path][HEADER_SIZE..HEADER_SIZE + |payload|] == payload
    ensures var q := r.(offset := at, source := None, data := None);
            && RowSound(fmt, q, HEADER_SIZE + |payload|, files1, path)
            && ItemOf(files1, path, q) == ItemOf(files0, path, r)
  {
    hide Crc32.Crc;
    SliceOfSlice(files1[path], HEADER_SIZE, HEADER_SIZE + |payload|, at, at + r.Extent());
  }

  /** Once the image is in place, the rebuilt rows are sound and mean what the old rows meant. */
  lemma RebuildPreservesMeaning(fmt: Format, end0: nat, files0: Files, path: Path, rows: seq<Row>, owner: seq<nat>,
                                offsets: seq<nat>, payload: seq<byte>, files1: Files)
    requires Sound(fmt, rows, end0, files0, path) && |owner| == |rows|
    requires Placed(files0, path, rows, owner, |rows|, offsets, payload)
    requires path in files1 && |files1[path]| >= HEADER_SIZE + |payload|
    requires files1[path][HEADER_SIZE..HEADER_SIZE + |payload|] == payload
    ensures var rows1 := Rebuilt(rows, offsets);
            && Sound(fmt, rows1, HEADER_SIZE + |payload|, files1, path) && !AnyStaged(rows1)
            && Items(files1, path, rows1) == Items(files0, path, rows)
  {
    hide RowSound, PlacedRow;
    var rows1 := Rebuilt(rows, offsets);
    forall k | 0 <= k < |rows|
      ensures RowSound(fmt, rows1[k], HEADER_SIZE + |payload|, files1, path)
      ensures ItemOf(files1, path, rows1[k]) == ItemOf(files0, path, rows[k])
    {
      RebuiltRow(fmt, end0, files0, path, rows[k], offsets[k], payload, files1);
    }
  }

  /** The same rows before their staged payloads are dropped: they point at the new places, and the
      staged ones still have their sources. */
  lemma RepointedRow(fmt: Format, end0: nat, files0: Files, path: Path, r: Row, at: nat, payload: seq<byte>,
                     files1: Files)
    requires RowSound(fmt, r, end0, files0, path) && PlacedRow(files0, path, r, at, payload)
    requires path in files1 && |files1[path]| >= HEADER_SIZE + |payload| && Kept(files0, files1, path)
    requires files1[path][HEADER_SIZE..HEADER_SIZE + |payload|] == payload
    ensures var q := r.(offset := at);
            && RowSound(fmt, q, HEADER_SIZE + |payload|, files1, path)
            && ItemOf(files1, path, q) == ItemOf(files0, path, r)
  {
    hide Crc32.Crc;
    SliceOfSlice(files1[path], HEADER_SIZE, HEADER_SIZE + |payload|, at, at + r.Extent());
  }

  lemma RepointingPreservesMeaning(fmt: Format, end0: nat, files0: Files, path: Path, rows: seq<Row>, owner: seq<nat>,
                                   offsets: seq<nat>, payload: seq<byte>, files1: Files)
    requires Sound(fmt, rows, end0, files0, path) && |owner| == |rows| && Kept(files0, files1, path)
    requires Placed(files0, path, rows, owner, |rows|, offsets, payload)
    requires path in files1 && |files1[path]| >= HEADER_SIZE + |payload|
    requires files1[path][HEADER_SIZE..HEADER_SIZE + |payload|] == payload
    ensures var rows1 := WithOffsets(rows, offsets);
            && Sound(fmt, rows1, HEADER_SIZE + |payload|, files1, path)
            && Items(files1, path, rows1) == Items(files0, path, rows)
  {
    hide RowSound, PlacedRow, Kept, ItemOf, Row.Extent;
    var rows1 := WithOffsets(rows, offsets);
    forall k | 0 <= k < |rows|
      ensures RowSound(fmt, rows1[k], HEADER_SIZE + |payload|, files1, path)
      ensures ItemOf(files1, path, rows1[k]) == ItemOf(files0, path, rows[k])
    {
      RepointedRow(fmt, end0, files0, path, rows[k], offsets[k], payload, files1);
    }
  }

  lemma OffsetsKeepStaged(rows: seq<Row>, offsets: seq<nat>)
    requires |rows| == |offsets|
    ensures AnyStaged(WithOffsets(rows, offsets)) ==> AnyStaged(rows)
  {
    if r :| r in WithOffsets(rows, offsets) && r.Staged() {
      var k :| 0 <= k < |rows| && WithOffsets(rows, offsets)[k] == r;
      assert rows[k].Staged() && rows[k] in rows;
    }
  }

  /** The rows with their new offsets fit their fields. */
  lemma LayoutFits(fmt: Format, end0: nat, files0: Files, path: Path, rows: seq<Row>, owner: seq<nat>,
                   offsets: seq<nat>, payload: seq<byte>)
    requires Sound(fmt, rows, end0, files0, path) && |owner| == |rows|
    requires Placed(files0, path, rows, owner, |rows|, offsets, payload)
    ensures AllFit(fmt, WithOffsets(rows, offsets)) && (rows == [] ==> payload == [])
  {
    hide PlacedRow, RowSound, Fits;
    forall k | 0 <= k < |rows| ensures Fits(fmt, WithOffsets(rows, offsets)[k]) {
      PlacedRowFits(fmt, end0, files0, path, rows[k], offsets[k], payload);
    }
  }

  lemma PlacedRowFits(fmt: Format, end0: nat, files0: Files, path: Path, r: Row, at: nat, payload: seq<byte>)
    requires RowSound(fmt, r, end0, files0, path) && PlacedRow(files0, path, r, at, payload)
    ensures Fits(fmt, r.(offset := at))
  {
    hide Trustworthy, Body;
  }

  /** What is staged does not show in the directory. */
  lemma {:induction false} StagedDoesNotShow(fmt: Format, rows: seq<Row>)
    requires AllFit(fmt, rows)
    ensures AllFit(fmt, Unstaged(rows)) && DirBytes(fmt, Unstaged(rows)) == DirBytes(fmt, rows)
    ensures Recorded(Unstaged(rows)) == Recorded(rows)
    decreases |rows|
  {
    forall k | 0 <= k < |rows| ensures Fits(fmt, Unstaged(rows)[k]) {
      assert Fits(fmt, rows[k]);
    }
    if rows != [] {
      StagedDoesNotShow(fmt, rows[1..]);
      assert Unstaged(rows)[1..] == Unstaged(rows[1..]);
      assert RowBytes(fmt, Unstaged(rows)[0]) == RowBytes(fmt, rows[0]);
    }
  }

  /** Once the scratch file has taken the archive's place, the archive means what it meant, whether
      or not the staged payloads have been dropped yet, and can be opened again. */
  lemma Publish(fmt: Format, end0: nat, files0: Files, path: Path, rows: seq<Row>, owner: seq<nat>,
                offsets: seq<nat>, payload: seq<byte>, files1: Files)
    requires Sound(fmt, rows, end0, files0, path) && |owner| == |rows| == |offsets| && Kept(files0, files1, path)
    requires path in files1
    requires Placed(files0, path, rows, owner, |rows|, offsets, payload)
    requires var rows1, end := WithOffsets(rows, offsets), HEADER_SIZE + |payload|;
             && AllFit(fmt, rows1) && (rows == [] ==> payload == [])
             && |DirBytes(fmt, rows1)| <= U32_MAX && DirOffset(rows1, end) <= U32_MAX && Addressable(fmt, rows1, end)
             && files1[path] == Image(Splice([], HEADER_SIZE, payload), fmt, rows1, end)
    ensures var rows1, end := WithOffsets(rows, offsets), HEADER_SIZE + |payload|;
            && Sound(fmt, rows1, end, files1, path) && Items(files1, path, rows1) == Items(files0, path, rows)
            && Sound(fmt, Unstaged(rows1), end, files1, path)
                 && Items(files1, path, Unstaged(rows1)) == Items(files0, path, rows)
            && !AnyStaged(Unstaged(rows1)) && (AnyStaged(rows1) ==> AnyStaged(rows))
            && Reloads(files1[path], fmt, rows1) && Reloads(files1[path], fmt, Unstaged(rows1))
  {
    hide Placed, Image, DirBytes, Splice, Sound, Items, AllFit;
    var rows1, end := WithOffsets(rows, offsets), HEADER_SIZE + |payload|;
    EmptyDirectory(fmt, rows1);
    ImageHoldsPayload(fmt, rows1, payload);
    RepointingPreservesMeaning(fmt, end0, files0, path, rows, owner, offsets, payload, files1);
    RebuildPreservesMeaning(fmt, end0, files0, path, rows, owner, offsets, payload, files1);
    OffsetsKeepStaged(rows, offsets);
    SoundIsWritable(fmt, Unstaged(rows1), end, files1, path);
    StagedReloads(Splice([], HEADER_SIZE, payload), fmt, rows1, end);
  }

  lemma StagedReloads(base: seq<byte>, fmt: Format, rows: seq<Row>, end: nat)
    requires AllFit(fmt, rows) && |DirBytes(fmt, rows)| <= U32_MAX && DirOffset(rows, end) <= U32_MAX
    requires Addressable(fmt, rows, end) && Writable(fmt, Unstaged(rows), end)
    ensures Reloads(Image(base, fmt, rows, end), fmt, rows) && Reloads(Image(base, fmt, rows, end), fmt, Unstaged(rows))
  {
    hide Writable, Load, Splice, DirBytes, AllFit, HeaderBytes;
    StagedDoesNotShow(fmt, rows);
    ImageReloads(base, fmt, Unstaged(rows), end);
  }
}
