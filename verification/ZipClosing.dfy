/** Commits put on record, and closing a ZIP archive. */
module ZipClosing {
  import opened ByteStrings
  import opened Outcomes
  import opened Commands
  import opened Deflate
  import opened PakStates
  import opened ZipCommitting
  import opened ZipMeanings
  import opened ZipArchives
  import opened ZipLimits
  import opened ZipCourses
  import opened Disks
  import ZipImages
  import PakRebuilding

  /** A commit, judged by the moments before and behind it. */
  method JudgedCommit(a: ZipArchive) returns (s: Status, ghost published: bool)
    requires a.Valid()
    modifies a`entries, a`cdrOffset, a`fileSize, a`dirty, a`fp, a.disk
    ensures a.Valid() && (old(a.disk.trouble) ==> a.disk.trouble) && KindOf(a) == old(KindOf(a))
    ensures Verdict(KindOf(a), Save, s, old(Now(a)), a.disk.trouble)
    ensures Noted(Save, Event(s, NOTHING, a.disk.trouble, published), old(Now(a)), Now(a))
    ensures HandleKept(Save, a.disk.trouble, old(Now(a)).open, Now(a).open) && a.Contents() == old(a.Contents())
    ensures AllOrNothing(old(a.disk.files), old(a.disk.log), a.disk.files, a.disk.log, a.path, published)
    ensures published ==> !a.dirty
  {
    hide ZipMeans, AllOrNothing, ItemsFor, Saveable, Unsaveable, Status.Fault, Present, Traced, StoredBody, Lossless,
      ZipSound, ZipImages.AllFit, ZipImages.AllRecordable, ZipImages.Tiled, ZipImages.Addressable, ZipImages.Image,
      ZipImages.Blocks, ZipImages.Reopened;
    NowPresent(a);
    PakRebuilding.NothingHappened(a.disk.files, a.disk.log, a.path);
    ghost var ms;
    s, ms, published := a.Commit();
  }

  /** A commit, put on record. */
  method CommitNow(a: ZipArchive) returns (s: Status, ghost published: bool)
    requires a.Valid()
    modifies a`entries, a`cdrOffset, a`fileSize, a`dirty, a`fp, a.disk
    ensures Followed(a, Save, Event(s, NOTHING, a.disk.trouble, published))
  {
    hide ZipArchive.Valid, ZipMeans, AllOrNothing, ItemsFor, Verdict, Noted, HandleKept, Present, Traced;
    NowPresent(a);
    ghost var m, log0 := Now(a), a.disk.log;
    s, published := JudgedCommit(a);
    NowPresent(a);
    TracedWhole(KindOf(a), Event(s, NOTHING, a.disk.trouble, published), m, Now(a), log0, a.disk.log);
  }

  /** Commits what is pending and closes the file. `e` is what came of the commit, and `after` the moment behind
      it, after which nothing happens to any file. */
  method CloseZip(a: ZipArchive) returns (s: Status, ghost e: Event<ZipItem>, ghost after: Moment)
    requires a.Valid()
    modifies a`entries, a`cdrOffset, a`fileSize, a`dirty, a`fp, a.disk
    ensures a.disk.Valid() && (old(a.disk.trouble) ==> a.disk.trouble) && old(a.disk.log) <= a.disk.log
    ensures Moves(old(KindOf(a)), Save, e, old(Now(a)), after, a.disk.log) && (e.failed ==> a.disk.trouble)
    ensures e.status == s && a.disk.files == after.files && |a.disk.log| == after.time
    ensures s == Ok ==> a.path in a.disk.files && ZipMeans(a.disk.files[a.path], old(a.Contents()))
    ensures s != Ok ==>
      || (a.disk.trouble && s.Fault()) || (s == InvalidArgument && old(a.dirty) && old(a.fp).None?)
      || Unsaveable(s, old(a.disk.files), old(a.entries))
  {
    hide ZipArchive.Valid, ZipArchive.Contents, Moves, ZipMeans, Unsaveable;
    NowPresent(a);
    DirtyIsWritable(a);
    ghost var k, m, published := KindOf(a), Now(a), false;
    s, published := CommitNow(a);
    e, after := Event(s, NOTHING, a.disk.trouble, published), Now(a);
    NowPresent(a);
    Ends(k, e, m, after, a.disk.log);
    StillLive(a);
    if a.fp.Some? {
      var _ := a.disk.Close(a.fp.value);
      a.fp := None;
    }
  }

  lemma DirtyIsWritable(a: ZipArchive)
    requires a.Valid()
    ensures a.dirty ==> a.writable
  {
    hide ZipMeans, Lossless, ZipSound;
  }

  lemma StillLive(a: ZipArchive)
    requires a.Valid()
    ensures a.disk.Valid() && a.LiveHandle()
  {
    hide ZipMeans, Lossless, ZipSound;
  }

  /** How a commit ends: the archive holds what it did, and one that succeeds leaves nothing to write. */
  lemma Ends(k: Kind, e: Event<ZipItem>, m: Moment, m': Moment, log: seq<Files>)
    requires Moves(k, Save, e, m, m', log)
    ensures Held(k, m') == Held(k, m) && (e.status == Ok ==> !m'.dirty)
    ensures if !m.dirty then e.status == Ok else if !m.open then e.status == InvalidArgument
            else
              || e.status == Ok || (e.failed && e.status.Fault())
              || Unsaveable(e.status, m.files, m.entries)
  {
    hide Present, Held, Traced, Suits, Unsaveable;
  }
}
