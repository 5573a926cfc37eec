/** ZIP files that a commit can write and that do not open again as they were written. */
module ZipHazards {
  import opened ByteStrings
  import opened Outcomes
  import Utf8
  import EntryNames
  import opened ZipNames
  import opened ZipFormat
  import opened ZipImages

  /** An empty stored entry at this place. */
  function Empty(name: seq<byte>, at: nat): Member {
    var payload := at + LFH_SIZE + |name|;
    Member(Entry(name, STORED, 0, 0, 0, at, payload, payload, None, None), [])
  }

  // ----- Names that the archive accepts -----

  lemma {:induction false} WithoutDot(name: seq<byte>)
    requires 0x2E !in name
    ensures EntryNames.BaseName(name) == name
  {
    if name != [] {
      WithoutDot(name[1..]);
      assert name[0] in name;
    }
  }

  lemma {:induction false} OneSegment(name: seq<byte>, p: nat)
    requires p <= |name| && forall b <- name :: !EntryNames.Separator(b)
    ensures EntryNames.UnsafeFrom(name, 0, p) == EntryNames.UnsafeSegment(name)
    decreases |name| - p
  {
    hide EntryNames.UnsafeSegment;
    if p < |name| {
      OneSegment(name, p + 1);
    } else {
      assert name[0..p] == name;
    }
  }

  /** A short name of letters, or of bytes that are not ASCII, is safe. */
  lemma ShortNameIsSafe(name: seq<byte>)
    requires 1 <= |name| <= 2 || |name| == 4
    requires forall b <- name :: 0x61 <= b <= 0x70 || 0x80 <= b
    ensures !EntryNames.UnsafeName(name)
  {
    OneSegment(name, 0);
    WithoutDot(name);
    var last, upper := name[|name| - 1], seq(|name|, i requires 0 <= i < |name| => EntryNames.Upper(name[i]));
    assert last in name && name[0] in name && upper[|name| - 1] == EntryNames.Upper(last);
    assert !EntryNames.ReservedDevice(name);
  }

  // ----- Two names that become one -----

  /** The byte 0x80 alone is not UTF-8; in code page 437 it is the letter U+00C7. */
  const OLD_NAME: seq<byte> := [0x80]

  /** U+00C7 in UTF-8. */
  const NEW_NAME: seq<byte> := [0xC3, 0x87]

  const TWINS: seq<Member> := [Empty(OLD_NAME, 0), Empty(NEW_NAME, 31)]

  /** Both names are accepted, and both are read as the second. */
  lemma SameDecoded()
    ensures OLD_NAME != NEW_NAME && !EntryNames.UnsafeName(OLD_NAME) && !EntryNames.UnsafeName(NEW_NAME)
    ensures NameOf(OLD_NAME, GpFlags(OLD_NAME)) == NameOf(NEW_NAME, GpFlags(NEW_NAME)) == Success(NEW_NAME)
  {
    hide EntryNames.UnsafeName;
    ShortNameIsSafe(OLD_NAME);
    ShortNameIsSafe(NEW_NAME);
    assert !Utf8.WellFormed(OLD_NAME);
    assert Expand(OLD_NAME) == NEW_NAME by {
      assert OLD_NAME[1..] == [] && Decode437(0x80) == NEW_NAME;
    }
    assert Utf8.WellFormed(NEW_NAME) by {
      assert NEW_NAME[..2] == NEW_NAME && NEW_NAME[2..] == [];
      assert Utf8.IsChar(NEW_NAME[..2]);
    }
  }

  /** An archive with two entries of different names, whose file is refused for a repeated name. */
  lemma TwoNamesBecomeOne()
    ensures AllFit(TWINS) && AllRecordable(TWINS) && Tiled(TWINS) && Addressable(TWINS)
    ensures DistinctNames(RecordedEntries(TWINS))
    ensures Load(Image(TWINS)) == Failure(Duplicate)
  {
    hide Load, Image, NameOf, Blocks, Directory;
    TwinsTile();
    ImageLoads(TWINS);
    SameDecoded();
    var a, b := TWINS[0].e, TWINS[1].e;
    assert ReloadEntry(b) == Success(b) && ReloadEntry(a) == Success(a.(name := NEW_NAME));
    assert Reload(TWINS[1..]) == Success([b]) by {
      NoMembers();
      assert TWINS[1..] == [TWINS[1]] && TWINS[1..][1..] == [] && [b] + [] == [b];
    }
    assert Reload(TWINS) == Success([a.(name := NEW_NAME)] + [b]);
    var es := [a.(name := NEW_NAME)] + [b];
    assert es[0].name == es[1].name;
  }

  lemma TwinsTile()
    ensures AllFit(TWINS) && AllRecordable(TWINS) && Tiled(TWINS) && Addressable(TWINS)
  {
    hide LfhBytes, CdrBytes;
    var init := [Empty(OLD_NAME, 0)];
    assert TWINS[..1] == init && init[..0] == [] && TWINS[1..] == [Empty(NEW_NAME, 31)];
    assert |Blocks(init)| == 31 && Tiled(init);
    DirectoryBound(TWINS);
  }

  // ----- A full archive -----

  /** The number in letters, from a for 0 to p for 15, k of them. */
  function Spelled(i: nat, k: nat): (name: seq<byte>)
    ensures |name| == k && forall b <- name :: 0x61 <= b <= 0x70
  {
    if k == 0 then [] else Spelled(i / 0x10, k - 1) + [0x61 + i % 0x10]
  }

  function Sixteens(k: nat): nat {
    if k == 0 then 1 else 0x10 * Sixteens(k - 1)
  }

  lemma {:induction false} SpelledApart(i: nat, j: nat, k: nat)
    requires i < Sixteens(k) && j < Sixteens(k) && Spelled(i, k) == Spelled(j, k)
    ensures i == j
  {
    if k > 0 {
      var a, b := Spelled(i, k), Spelled(j, k);
      assert a[..k - 1] == Spelled(i / 0x10, k - 1) && b[..k - 1] == Spelled(j / 0x10, k - 1);
      assert a[k - 1] == 0x61 + i % 0x10 && b[k - 1] == 0x61 + j % 0x10;
      SpelledApart(i / 0x10, j / 0x10, k - 1);
    }
  }

  /** Empty entries named after their numbers, one after the other. */
  function Row(n: nat): (ms: seq<Member>)
    ensures |ms| == n && forall i :: 0 <= i < n ==> ms[i] == Empty(Spelled(i, 4), 34 * i)
  {
    if n == 0 then [] else Row(n - 1) + [Empty(Spelled(n - 1, 4), 34 * (n - 1))]
  }

  lemma EmptyIsRecordable(name: seq<byte>, at: nat)
    requires |name| == 4 && at <= U32_MAX && forall b <- name :: 0x61 <= b <= 0x70
    ensures Fits(Empty(name, at).e) && Recordable(Empty(name, at).e) && Located(Empty(name, at).e, at)
    ensures |Block(Empty(name, at))| == 34
  {
    hide LfhBytes;
    assert name[3] in name;
  }

  lemma {:induction false} RowTiles(n: nat)
    requires n <= 0x1_0000
    ensures AllFit(Row(n)) && AllRecordable(Row(n)) && Tiled(Row(n)) && |Blocks(Row(n))| == 34 * n
  {
    hide Block, Spelled, Fits, Recordable, Located, Empty;
    if n > 0 {
      RowTiles(n - 1);
      EmptyIsRecordable(Spelled(n - 1, 4), 34 * (n - 1));
      EmptyBody(Spelled(n - 1, 4), 34 * (n - 1));
      var ms := Row(n);
      assert ms[..n - 1] == Row(n - 1);
      assert ms[n - 1] == Empty(Spelled(n - 1, 4), 34 * (n - 1));
      assert forall m <- ms :: m in Row(n - 1) || m == ms[n - 1];
    }
  }

  lemma EmptyBody(name: seq<byte>, at: nat)
    ensures |Empty(name, at).body| == Empty(name, at).e.csize
  {}

  lemma {:induction false} SpelledDirectory(ms: seq<Member>)
    requires AllFit(ms) && forall m <- ms :: |m.e.name| == 4
    ensures |Directory(ms)| == 50 * |ms|
  {
    hide CdrBytes;
    if ms != [] {
      assert ms[0] in ms;
      SpelledDirectory(ms[1..]);
    }
  }

  /** An archive of 65535 entries with safe and distinct names can be written, and its file is refused. */
  lemma FullFile()
    ensures var ms := Row(U16_MAX);
            && AllFit(ms) && AllRecordable(ms) && Tiled(ms) && Addressable(ms)
            && DistinctNames(RecordedEntries(ms))
            && (forall m <- ms :: Faithful(m.e) && !EntryNames.UnsafeName(m.e.name))
            && Load(Image(ms)) == Failure(Unsupported)
  {
    hide Load, Image, Blocks, Directory, Spelled, Tiled, EntryNames.UnsafeName, Utf8.WellFormed, Row, AllFit,
      AllRecordable;
    var ms := Row(U16_MAX);
    RowTiles(U16_MAX);
    SpelledDirectory(ms);
    FullCountIsRefused(ms);
    NumbersApart(ms);
    forall m | m in ms ensures Faithful(m.e) && !EntryNames.UnsafeName(m.e.name) {
      var i :| 0 <= i < |ms| && ms[i] == m;
      ShortNameIsSafe(m.e.name);
      AsciiIsUtf8(m.e.name);
    }
  }

  lemma NumbersApart(ms: seq<Member>)
    requires |ms| <= 0x1_0000 && forall i :: 0 <= i < |ms| ==> ms[i] == Empty(Spelled(i, 4), 34 * i)
    ensures DistinctNames(RecordedEntries(ms))
  {
    hide Spelled;
    var es := RecordedEntries(ms);
    assert Sixteens(4) == 0x10 * Sixteens(3) == 0x100 * Sixteens(2) == 0x1000 * Sixteens(1) == 0x1_0000;
    forall i, j | 0 <= i < j < |es| ensures es[i].name != es[j].name {
      if es[i].name == es[j].name { SpelledApart(i, j, 4); }
    }
  }

  lemma {:induction false} AsciiIsUtf8(s: seq<byte>)
    requires forall b <- s :: b < 0x80
    ensures Utf8.WellFormed(s)
  {
    if s != [] {
      assert s[0] in s && forall b <- s[1..] :: b in s;
      AsciiIsUtf8(s[1..]);
      assert Utf8.IsChar(s[..1]);
    }
  }
}
