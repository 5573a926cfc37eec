/** What keeps a commit from succeeding when every call works: how much room there is, counted in bytes, and
    whether the sources are what they were. */
module PakLimits {
  import opened Outcomes
  import opened PakFormat
  import opened PakStates
  import opened PakCopying
  import opened PakWriting
  import opened PakSharing
  import opened PakLayouts
  import opened Disks
  import PakOnDisk
  import Crc32

  const LAST := 0xFFFF_FFFF

  /** A directory of n rows behind `end` does not pass 4 GiB; an empty one is not written at all. */
  predicate HasRoom(fmt: Format, n: nat, end: nat) {
    n == 0 || end + n * PakOnDisk.RowWidth(fmt) <= LAST
  }

  /** A source that was to be read by the commit still has its size and its checksum. */
  ghost predicate Genuine(files: Files, r: Row) {
    r.source.Some? && r.data.None? ==>
      r.source.value in files && |files[r.source.value]| == r.length && Crc32.Crc(0, files[r.source.value]) == r.crc
  }

  /** All that a commit needs besides calls that work: room for the directory, behind the payloads where they are
      or, in a rebuild, behind one copy of each, and sources that have not changed. */
  ghost predicate Committable(files: Files, fmt: Format, rows: seq<Row>, end: nat, rebuild: bool) {
    if rebuild then
      && (forall r <- rows :: Genuine(files, r))
      && forall who: seq<nat> :: OwnerMap(rows, who) ==> HasRoom(fmt, |rows|, 12 + OwnedBytes(rows, who, |rows|))
    else HasRoom(fmt, |rows|, end)
  }

  /** The reasons for which a commit fails by itself: no room, or a source that has changed. */
  ghost predicate Uncommittable(s: Status, files: Files, fmt: Format, rows: seq<Row>, end: nat, rebuild: bool) {
    if rebuild then
      || (s == LimitError
          && exists who: seq<nat> ::
               OwnerMap(rows, who) && !HasRoom(fmt, |rows|, 12 + OwnedBytes(rows, who, |rows|)))
      || (s == FormatError && exists r <- rows :: !Genuine(files, r))
    else s == LimitError && !HasRoom(fmt, |rows|, end)
  }

  /** The bytes of the first n payloads, each counted by itself. */
  ghost function AllBytes(rows: seq<Row>, n: nat): nat
    requires n <= |rows|
  {
    if n == 0 then 0 else AllBytes(rows, n - 1) + rows[n - 1].Extent()
  }

  /** The reasons for which a commit fails, apart from a failed call: without memory for the owner map, payloads
      that share bytes are copied one by one and may take too much. */
  ghost predicate Excused(s: Status, files: Files, fmt: Format, rows: seq<Row>, end: nat, rebuild: bool) {
    if rebuild then
      || (s == LimitError && !HasRoom(fmt, |rows|, 12 + AllBytes(rows, |rows|)))
      || (s == FormatError && exists r <- rows :: !Genuine(files, r))
    else s == LimitError && !HasRoom(fmt, |rows|, end)
  }

  lemma {:induction false} SharingSaves(rows: seq<Row>, who: seq<nat>, n: nat)
    requires n <= |rows| == |who|
    ensures OwnedBytes(rows, who, n) <= AllBytes(rows, n)
  {
    if n > 0 { SharingSaves(rows, who, n - 1); }
  }

  lemma UncommittableIsNot(s: Status, files: Files, fmt: Format, rows: seq<Row>, end: nat, rebuild: bool)
    requires Uncommittable(s, files, fmt, rows, end, rebuild)
    ensures !Committable(files, fmt, rows, end, rebuild) && s in {LimitError, FormatError}
  {
    hide HasRoom, Genuine, OwnerMap;
  }

  /** The directory takes its number of rows times the width of one. */
  lemma DirectoryTakes(fmt: Format, rows: seq<Row>)
    requires AllFit(fmt, rows)
    ensures |DirBytes(fmt, rows)| == |rows| * PakOnDisk.RowWidth(fmt)
  {
    DirLength(fmt, rows);
    PakOnDisk.Widths(fmt);
  }

  lemma TooFarExactly(fmt: Format, rows: seq<Row>, end: nat)
    ensures TooFar(fmt, rows, end) <==> !HasRoom(fmt, |rows|, end)
  {
    PakOnDisk.Widths(fmt);
  }

  /** There is one owner map. */
  lemma OneOwnerMap(rows: seq<Row>, a: seq<nat>, b: seq<nat>)
    requires OwnerMap(rows, a) && OwnerMap(rows, b)
    ensures a == b
  {
    forall i | 0 <= i < |rows| ensures a[i] == b[i] {
      assert IsOwner(rows, i, a[i]) && IsOwner(rows, i, b[i]);
    }
  }

  /** Only a changed source makes a sound row one that a rebuild does not trust. */
  lemma TrustedExactly(fmt: Format, rows: seq<Row>, end: nat, files: Files, path: Path, r: Row)
    requires Sound(fmt, rows, end, files, path) && r in rows
    ensures Trustworthy(files, path, r) <==> Genuine(files, r)
  {
    hide Crc32.Crc;
    assert RowSound(fmt, r, end, files, path);
  }
}
