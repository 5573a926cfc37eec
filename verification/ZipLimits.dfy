/** What keeps a ZIP commit from succeeding when every call works: how much room there is, counted in bytes,
    and whether the sources are what they were. */
module ZipLimits {
  import opened Outcomes
  import opened ZipFormat
  import opened ZipCommitting
  import opened Disks
  import Crc32

  const LAST := 0xFFFF_FFFF

  /** The bytes that entries take: a local header of 30 bytes, a record of 46, the name twice and the payload. */
  function Taken(es: seq<Entry>): nat {
    if es == [] then 0 else 30 + |es[0].name| + es[0].csize + 46 + |es[0].name| + Taken(es[1..])
  }

  /** With the end record of 22 bytes the file stays within 4 GiB, and the entries can be counted in 16 bits. */
  predicate HasRoom(es: seq<Entry>) {
    |es| <= 65535 && Taken(es) + 22 <= LAST
  }

  /** A source that was to be read by the commit still has its size and its checksum. */
  ghost predicate Genuine(files: Files, e: Entry) {
    e.source.Some? && e.data.None? ==>
      e.source.value in files && |files[e.source.value]| == e.csize
      && Crc32.Crc(0, files[e.source.value]) as int == e.crc
  }

  ghost predicate Saveable(files: Files, es: seq<Entry>) {
    HasRoom(es) && forall e <- es :: Genuine(files, e)
  }

  /** The reasons for which a commit fails, apart from a failed call. */
  ghost predicate Unsaveable(s: Status, files: Files, es: seq<Entry>) {
    (s == LimitError && !HasRoom(es)) || (s == FormatError && exists e <- es :: !Genuine(files, e))
  }

  lemma {:induction false} RoomFromFront(es: seq<Entry>, n: nat)
    requires es != [] && n < |es|
    ensures Room(es, n + 1) == es[0].Extent() + Room(es[1..], n)
  {
    if n > 0 { RoomFromFront(es, n - 1); }
  }

  lemma {:induction false} RoomIsTaken(es: seq<Entry>)
    ensures Room(es, |es|) + DirectoryRoom(es) == Taken(es)
  {
    hide Room;
    if es == [] {
      NoRoomTaken();
    } else {
      RoomFromFront(es, |es| - 1);
      RoomIsTaken(es[1..]);
    }
  }

  lemma NoRoomTaken()
    ensures Room([], 0) == 0
  {}

  lemma ChangedExactly(es: seq<Entry>, end: nat, files: Files, path: Path, e: Entry)
    requires ZipSound(es, end, files, path) && e in es
    ensures Unchanged(files, path, e) <==> Genuine(files, e)
  {
    hide Crc32.Crc;
    assert EntrySound(e, end, files, path);
  }

  /** A commit is hopeless exactly if there is no room or a source has changed. */
  lemma HopelessExactly(es: seq<Entry>, end: nat, files: Files, path: Path)
    requires ZipSound(es, end, files, path)
    ensures forall s: Status :: Hopeless(s, files, path, es) <==> Unsaveable(s, files, es)
  {
    hide ZipSound, Unchanged, Genuine;
    RoomIsTaken(es);
    forall e | e in es ensures Unchanged(files, path, e) <==> Genuine(files, e) {
      ChangedExactly(es, end, files, path, e);
    }
  }
}
