/** What a ZIP file stands for, and what becomes of its items when it is written and opened again. */
module ZipMeanings {
  import opened ByteStrings
  import opened Outcomes
  import opened Deflate
  import opened ZipNames
  import opened ZipFormat
  import opened ZipImages
  import opened ZipCommitting
  import opened PakStates
  import Crc32
  import Utf8
  import PakFormat

  /** The item stands for these bytes. */
  ghost predicate Denotes(c: Codec, item: ZipItem, data: seq<byte>) {
    && item.usize == |data| && item.crc == Crc32.Crc(0, data) as int
    && if item.packing == DEFLATED then c.inflate(item.body, item.usize) == Some(data) else item.body == data
  }

  // ----- Writing and opening again -----

  /** The item as it comes back: its name decoded; an uncompressed size of all ones is taken for a
      ZIP64 mark. */
  function Returned(item: ZipItem): Result<ZipItem> {
    if item.usize == U32_MAX then Failure(Unsupported)
    else
      var name :- NameOf(item.name, GpFlags(item.name));
      Success(item.(name := name))
  }

  function ReturnedAll(items: seq<ZipItem>): (r: Result<seq<ZipItem>>)
    ensures r.Success? ==> |r.value| == |items|
  {
    if items == [] then Success([])
    else
      var item :- Returned(items[0]);
      var rest :- ReturnedAll(items[1..]);
      Success([item] + rest)
  }

  predicate Apart(items: seq<ZipItem>) {
    forall i, j :: 0 <= i < j < |items| ==> items[i].name != items[j].name
  }

  /** What opening makes of a file that was written for these items. */
  function Reread(items: seq<ZipItem>): Result<seq<ZipItem>> {
    if |items| == U16_MAX then Failure(Unsupported)
    else
      var back :- ReturnedAll(items);
      if !Apart(back) then Failure(Duplicate) else Success(back)
  }

  /** What opening a file as a ZIP file must give: the signature and the hint come first. A file that is
      no ZIP file is not opened here. */
  function LoadZip(file: seq<byte>, hint: PakFormat.Hint): (r: Result<Opened>)
    ensures r != Failure(Ok)
  {
    if |file| < 4 then Failure(IoError)
    else
      var magic :- PakFormat.Classify(file[..4], hint);
      if magic.Zip? then Load(file) else Failure(FormatError)
  }

  /** Opening a file with these bytes gives these items, as far as they come back at all. */
  ghost predicate ZipMeans(bytes: seq<byte>, items: seq<ZipItem>) {
    match Reread(items)
    case Failure(s) => LoadZip(bytes, PakFormat.AsZip) == Failure(s)
    case Success(back) =>
      && LoadZip(bytes, PakFormat.AsZip).Success?
      && ItemsFor(map[HERE := bytes], HERE, LoadZip(bytes, PakFormat.AsZip).value.entries) == back
  }

  /** The name is UTF-8 and the size is not the ZIP64 mark. */
  predicate Lasting(item: ZipItem) {
    Utf8.WellFormed(item.name) && item.usize < U32_MAX
  }

  lemma ReturnedOne(item: ZipItem)
    requires |item.name| < NAME_BUFFER && item.usize <= U32_MAX
    ensures Returned(item) == Success(item) <==> Lasting(item)
  {
    hide Utf8.WellFormed, DecodeName, GpFlags;
    ComesBackIffUtf8(item.name, NAME_BUFFER);
  }

  lemma {:induction false} ReturnedSame(items: seq<ZipItem>)
    requires forall t <- items :: |t.name| < NAME_BUFFER && t.usize <= U32_MAX
    ensures ReturnedAll(items) == Success(items) <==> forall t <- items :: Lasting(t)
    decreases |items|
  {
    hide Returned, Lasting;
    if items != [] {
      ReturnedOne(items[0]);
      ReturnedSame(items[1..]);
      assert items == [items[0]] + items[1..];
      if ReturnedAll(items) == Success(items) {
        var rest := ReturnedAll(items[1..]).value;
        assert ([Returned(items[0]).value] + rest)[1..] == rest;
      }
    }
  }

  /** The items come back unchanged exactly if there are not 65535 of them and each of them lasts. */
  lemma ComesBackExactly(items: seq<ZipItem>)
    requires (forall t <- items :: |t.name| < NAME_BUFFER && t.usize <= U32_MAX) && Apart(items)
    ensures Reread(items) == Success(items) <==> |items| != U16_MAX && forall t <- items :: Lasting(t)
  {
    hide ReturnedAll, Lasting;
    ReturnedSame(items);
  }

  // ----- A written file -----

  function MemberItem(m: Member): ZipItem {
    ZipItem(m.e.name, m.e.packing, m.e.crc, m.e.usize, m.body)
  }

  function MemberItems(ms: seq<Member>): (r: seq<ZipItem>)
    ensures |r| == |ms| && forall i :: 0 <= i < |r| ==> r[i] == MemberItem(ms[i])
  {
    seq(|ms|, i requires 0 <= i < |ms| => MemberItem(ms[i]))
  }

  /** What came back of a member, as an entry and as an item. */
  predicate Alike(m: Member, e: Entry, t: ZipItem) {
    e == m.e.Recorded().(name := e.name) && t == MemberItem(m).(name := e.name)
  }

  lemma OneAlike(m: Member)
    ensures var r, t := ReloadEntry(m.e), Returned(MemberItem(m));
            if r.Failure? then t == Failure(r.status) else t.Success? && Alike(m, r.value, t.value)
  {
    hide NameOf, GpFlags;
  }

  /** Entries and items come back, or are refused, alike. */
  lemma {:induction false} BackAlike(ms: seq<Member>)
    ensures var r, t := Reload(ms), ReturnedAll(MemberItems(ms));
            if r.Failure? then t == Failure(r.status)
            else t.Success? && |r.value| == |ms| && forall i :: 0 <= i < |ms| ==> Alike(ms[i], r.value[i], t.value[i])
    decreases |ms|
  {
    hide ReloadEntry, Returned, Alike, MemberItem;
    if ms != [] {
      OneAlike(ms[0]);
      BackAlike(ms[1..]);
      assert MemberItems(ms)[1..] == MemberItems(ms[1..]);
      if Reload(ms).Success? {
        var es, items := Reload(ms[1..]).value, ReturnedAll(MemberItems(ms[1..])).value;
        assert Reload(ms).value == [ReloadEntry(ms[0].e).value] + es;
        forall i | 0 < i < |ms| ensures Alike(ms[i], Reload(ms).value[i], ReturnedAll(MemberItems(ms)).value[i]) {
          assert Alike(ms[1..][i - 1], es[i - 1], items[i - 1]);
        }
      }
    }
  }

  /** A file that a commit wrote is taken for a ZIP file, unless the hint names another format. */
  lemma WrittenIsZip(ms: seq<Member>, hint: PakFormat.Hint)
    requires AllFit(ms) && AllRecordable(ms) && Tiled(ms) && Addressable(ms)
    ensures LoadZip(Image(ms), hint) == if hint.As? then Failure(InvalidArgument) else Reopened(ms)
  {
    hide Load, Image, Reopened;
    LooksLikeZip(ms);
    ImageLoads(ms);
  }

  /** A file written for the members stands for their items. */
  lemma ImageMeans(ms: seq<Member>)
    requires AllFit(ms) && AllRecordable(ms) && Tiled(ms) && Addressable(ms)
    ensures ZipMeans(Image(ms), MemberItems(ms))
  {
    hide LoadZip, Reload, ReturnedAll, Image, Blocks, Directory, AllFit, AllRecordable, Tiled, Addressable, Fits,
      LfhBytes;
    WrittenIsZip(ms, PakFormat.AsZip);
    BackAlike(ms);
    if Reread(MemberItems(ms)).Success? || Reopened(ms).Success? {
      var es, back := Reload(ms).value, ReturnedAll(MemberItems(ms)).value;
      var there := map[HERE := Image(ms)];
      forall i | 0 <= i < |ms| ensures ItemFor(there, HERE, es[i]) == back[i] {
        MemberPresent(ms, i);
        BodyThere(Image(ms), ms[i], |Blocks(ms)|, es[i]);
      }
      assert ItemsFor(there, HERE, es) == back;
    }
  }

  lemma BodyThere(file: seq<byte>, m: Member, end: nat, e: Entry)
    requires Present(file, m, end) && e == m.e.Recorded().(name := e.name)
    ensures StoredBody(map[HERE := file], HERE, e) == m.body
  {
    hide LfhBytes;
  }
}
