/** What an archive in memory stands for, which states of it are sound, and why writes to its file
    or to a scratch file leave its meaning alone. */
module PakStates {
  import opened ByteStrings
  import opened Outcomes
  import opened PakFormat
  import opened Disks
  import DkCodec

  // ----- Meaning -----

  /** An entry as the user sees it. `body` is the payload as stored, packed if `compressed`. */
  datatype Item = Item(name: seq<byte>, length: nat, compressed: bool, body: seq<byte>) {
    /** The entry's content is `content`. */
    ghost predicate Denotes(content: seq<byte>) {
      && length == |content|
      && if compressed then DkCodec.Accepts(body, length) && DkCodec.Meaning(body, []).out == content
         else body == content
    }
  }

  /** The bytes of an extent, when the file has it. */
  function Slice(file: seq<byte>, from: nat, n: nat): (s: seq<byte>)
    ensures from + n <= |file| ==> |s| == n
  {
    if from + n <= |file| then file[from..from + n] else []
  }

  /** The stored payload of a row: staged bytes, a source file, or an extent of the archive. */
  function Body(files: Files, path: Path, r: Row): seq<byte> {
    match r.data
    case Some(d) => d
    case None =>
      match r.source
      case Some(src) => if src in files then files[src] else []
      case None => if path in files then Slice(files[path], r.offset, r.Extent()) else []
  }

  function ItemOf(files: Files, path: Path, r: Row): Item {
    Item(r.name, r.length, r.compressed, Body(files, path, r))
  }

  function Items(files: Files, path: Path, rows: seq<Row>): (s: seq<Item>)
    ensures |s| == |rows| && forall i :: 0 <= i < |rows| ==> s[i] == ItemOf(files, path, rows[i])
  {
    seq(|rows|, i requires 0 <= i < |rows| => ItemOf(files, path, rows[i]))
  }

  // ----- Soundness -----

  predicate AnyStaged(rows: seq<Row>) {
    exists r <- rows :: r.Staged()
  }

  /** A staged row has one payload source; any other row has its payload below `end`. */
  ghost predicate RowSound(fmt: Format, r: Row, end: nat, files: Files, path: Path) {
    && Fits(fmt, r)
    && !(r.source.Some? && r.data.Some?)
    && (r.data.Some? ==> |r.data.value| == r.Extent() && (r.compressed ==> DkCodec.Accepts(r.data.value, r.length)))
    && (r.source.Some? ==> r.source.value in files && r.source.value != path && !r.compressed)
    && (!r.Staged() ==> InRange(fmt, r, end))
  }

  /** payloadEnd bounds every payload, the file reaches that far, and names are unique. */
  ghost predicate Sound(fmt: Format, rows: seq<Row>, end: nat, files: Files, path: Path) {
    && path in files && HEADER_SIZE <= end <= |files[path]|
    && (forall r <- rows :: RowSound(fmt, r, end, files, path))
    && (fmt.Wad() || DistinctNames(rows))
  }

  // ----- Writes that leave the meaning alone -----

  /** Files other than p are as they were, and p has kept its bytes between the header and `end`. */
  ghost predicate Beyond(before: Files, after: Files, p: Path, end: nat) {
    && p in before && p in after && after == before[p := after[p]]
    && |after[p]| >= |before[p]|
    && forall x :: HEADER_SIZE <= x < end && x < |before[p]| ==> after[p][x] == before[p][x]
  }

  /** A write behind `end`, or inside the header. */
  lemma SpliceBeyond(before: Files, p: Path, end: nat, mid: Files, at: nat, d: seq<byte>)
    requires Beyond(before, mid, p, end) && (end <= at || at + |d| <= HEADER_SIZE)
    ensures Beyond(before, mid[p := Splice(mid[p], at, d)], p, end)
  {}

  lemma BeyondKeepsItems(fmt: Format, rows: seq<Row>, end: nat, before: Files, after: Files, path: Path)
    requires Sound(fmt, rows, end, before, path) && !AnyStaged(rows) && Beyond(before, after, path, end)
    ensures Sound(fmt, rows, end, after, path) && Items(after, path, rows) == Items(before, path, rows)
  {
    forall r | r in rows
      ensures ItemOf(after, path, r) == ItemOf(before, path, r) && RowSound(fmt, r, end, after, path) {
      assert RowSound(fmt, r, end, before, path);
      assert !r.Staged();
      if r.Extent() > 0 {
        assert before[path][r.offset..r.End()] == after[path][r.offset..r.End()];
      }
    }
  }

  /** Every file there was before, except perhaps p, is as it was, and only temporary files are new. */
  ghost predicate Kept(before: Files, after: Files, p: Path) {
    && (forall q <- before :: q != p ==> q in after && after[q] == before[q])
    && (forall q <- after :: q in before || TempName(q))
  }

  /** Every file there was before is as it was. */
  ghost predicate Extends(before: Files, after: Files) {
    forall p <- before :: p in after && after[p] == before[p]
  }

  lemma ExtendsKeepsItems(fmt: Format, rows: seq<Row>, end: nat, before: Files, after: Files, path: Path)
    requires Sound(fmt, rows, end, before, path) && Extends(before, after)
    ensures Sound(fmt, rows, end, after, path) && Items(after, path, rows) == Items(before, path, rows)
  {
    forall r | r in rows
      ensures ItemOf(after, path, r) == ItemOf(before, path, r) && RowSound(fmt, r, end, after, path) {
      assert RowSound(fmt, r, end, before, path);
    }
  }

  lemma ExtendsKeepsRow(fmt: Format, rows: seq<Row>, end: nat, before: Files, after: Files, path: Path, i: nat)
    requires Sound(fmt, rows, end, before, path) && Extends(before, after) && i < |rows|
    ensures RowSound(fmt, rows[i], end, after, path) && Body(after, path, rows[i]) == Body(before, path, rows[i])
    ensures path in after && end <= |after[path]|
    ensures rows[i].source.Some? ==> rows[i].source.value in before
  {
    assert RowSound(fmt, rows[i], end, before, path);
  }

  lemma SoundIsWritable(fmt: Format, rows: seq<Row>, end: nat, files: Files, path: Path)
    requires Sound(fmt, rows, end, files, path) && !AnyStaged(rows)
    ensures Writable(fmt, rows, end)
  {
    forall r | r in rows ensures Fits(fmt, r) && InRange(fmt, r, end) {
      assert RowSound(fmt, r, end, files, path) && !r.Staged();
    }
  }

  lemma SoundAfterAppend(fmt: Format, rows: seq<Row>, end: nat, r: Row, end1: nat, files: Files, path: Path)
    requires Sound(fmt, rows, end, files, path) && end <= end1 <= |files[path]| && RowSound(fmt, r, end1, files, path)
    requires fmt.Wad() || forall q <- rows :: q.name != r.name
    ensures Sound(fmt, rows + [r], end1, files, path)
    ensures Items(files, path, rows + [r]) == Items(files, path, rows) + [ItemOf(files, path, r)]
    ensures AnyStaged(rows + [r]) <==> AnyStaged(rows) || r.Staged()
  {
    forall q | q in rows + [r] ensures RowSound(fmt, q, end1, files, path) {
      if q in rows { assert RowSound(fmt, q, end, files, path); }
    }
    assert r in rows + [r];
    assert forall q <- rows :: q in rows + [r];
  }

  lemma SoundAfterCut(fmt: Format, rows: seq<Row>, end: nat, i: nat, files: Files, path: Path)
    requires Sound(fmt, rows, end, files, path) && i < |rows|
    ensures var cut, items := rows[..i] + rows[i + 1..], Items(files, path, rows);
            && Sound(fmt, cut, end, files, path)
            && Items(files, path, cut) == items[..i] + items[i + 1..]
            && (AnyStaged(cut) ==> AnyStaged(rows))
  {
    var cut := rows[..i] + rows[i + 1..];
    assert forall q <- cut :: q in rows;
    assert forall k :: 0 <= k < |cut| ==> cut[k] == rows[if k < i then k else k + 1];
  }

  lemma SoundAfterRename(fmt: Format, rows: seq<Row>, end: nat, i: nat, name: seq<byte>, files: Files, path: Path)
    requires Sound(fmt, rows, end, files, path) && i < |rows|
    requires |name| <= fmt.NameLen() && 0 !in name && (fmt.Wad() || forall q <- rows :: q.name != name)
    ensures var named, items := rows[i := rows[i].(name := name)], Items(files, path, rows);
            && Sound(fmt, named, end, files, path)
            && Items(files, path, named) == items[i := items[i].(name := name)]
            && (AnyStaged(named) ==> AnyStaged(rows))
  {
    var named := rows[i := rows[i].(name := name)];
    forall q | q in named ensures RowSound(fmt, q, end, files, path) {
      var k :| 0 <= k < |named| && named[k] == q;
      assert RowSound(fmt, rows[k], end, files, path);
    }
    forall a, b | 0 <= a < b < |named| && !fmt.Wad() ensures named[a].name != named[b].name {
      assert rows[a].name != name && rows[b].name != name;
    }
    if r :| r in named && r.Staged() {
      var k :| 0 <= k < |named| && named[k] == r;
      assert rows[k].Staged() && rows[k] in rows;
    }
  }

  // ----- Files that stand for archives -----

  /** The archive's file under its new name means what it meant under the old one. */
  lemma MovedArchive(fmt: Format, rows: seq<Row>, files0: Files, path: Path, files1: Files, target: Path)
    requires !AnyStaged(rows) && path in files0 && target in files1 && files1[target] == files0[path]
    ensures Items(files1, target, rows) == Items(files0, path, rows)
  {
    forall k | 0 <= k < |rows| ensures ItemOf(files1, target, rows[k]) == ItemOf(files0, path, rows[k]) {
      assert !rows[k].Staged();
    }
  }

  const HERE: Path := "archive"

  /** Opening a file with these bytes gives these items; too many items cannot be opened. */
  ghost predicate Means(bytes: seq<byte>, fmt: Format, items: seq<Item>) {
    if |items| > MAX_ENTRIES then Load(bytes, As(fmt)) == Failure(LimitError)
    else Load(bytes, As(fmt)).Success? && Items(map[HERE := bytes], HERE, Load(bytes, As(fmt)).value.rows) == items
  }

  lemma ReloadsMeans(files: Files, path: Path, fmt: Format, rows: seq<Row>)
    requires path in files && Reloads(files[path], fmt, rows) && !AnyStaged(rows)
    ensures Means(files[path], fmt, Items(files, path, rows))
  {
    hide Load;
    var there := map[HERE := files[path]];
    MovedArchive(fmt, rows, files, path, there, HERE);
    forall k | 0 <= k < |rows| ensures ItemOf(there, HERE, Recorded(rows)[k]) == ItemOf(there, HERE, rows[k]) {
      assert !rows[k].Staged();
    }
    assert Items(there, HERE, Recorded(rows)) == Items(there, HERE, rows);
  }

  // ----- All or nothing -----

  /** At every moment in between, the file at p was the old one or, once it was published, the new
      one; files that were there before stayed as they were. */
  ghost predicate AllOrNothing(files0: Files, log0: seq<Files>, files1: Files, log1: seq<Files>, p: Path,
                               published: bool)
  {
    && p in files0 && p in files1 && Kept(files0, files1, p) && log0 <= log1
    && (!published ==> files1[p] == files0[p])
    && (forall i :: |log0| <= i < |log1| ==> OldOrNew(files0, log1[i], files1, p, published))
    && (forall i, j :: |log0| <= i < j < |log1| && log1[i][p] != files0[p] ==> log1[j][p] == files1[p])
  }

  ghost predicate OldOrNew(files0: Files, now: Files, files1: Files, p: Path, published: bool) {
    && p in files0 && p in now && p in files1 && Kept(files0, now, p)
    && (now[p] == files0[p] || (published && now[p] == files1[p]))
  }
}
