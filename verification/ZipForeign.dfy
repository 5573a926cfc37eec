/** ZIP files that other programs have written: opening undoes every writer that keeps to the format, with
    whatever extra fields, comments and gaps it leaves. */
module ZipForeign {
  import opened ByteStrings
  import opened Outcomes
  import opened PakOnDisk
  import opened ZipFormat
  import opened ZipOnDisk
  import opened ZipCommitting
  import opened PakStates

  /** An entry as some program has filed it: the places of its record and of its local header, its name as
      written, and its payload as stored. */
  datatype Filed = Filed(record: nat, header: nat, name: seq<byte>, flags: nat, packing: nat, crc: nat, usize: nat,
                         body: seq<byte>)

  /** The record is there, with an extra field and a comment of any length, in a directory that ends at `end`. */
  predicate RecordThere(f: seq<byte>, r: Filed, end: nat)
    requires end <= |f|
  {
    var p := r.record;
    && p + 46 <= end && Marks(f, p, 1, 2) && p + RecordSize(f, p) <= end
    && Half(f, p + 8) == r.flags && Half(f, p + 10) == r.packing && Word(f, p + 16) == r.crc
    && Word(f, p + 20) == |r.body| && Word(f, p + 24) == r.usize && Half(f, p + 28) == |r.name|
    && Word(f, p + 38) / 0x1000_0000 != 0xA && Word(f, p + 42) == r.header
    && RawName(f, p) == r.name
  }

  /** The local header is there, with a name and an extra field of any length, and behind them the payload, before
      the directory. */
  predicate HeaderThere(f: seq<byte>, r: Filed, place: nat) {
    var l := r.header;
    && l + 30 <= |f| && Marks(f, l, 3, 4) && place <= |f|
    && !Bit(Half(f, l + 6), 0) && !Bit(Half(f, l + 6), 3) && Half(f, l + 8) == r.packing
    && Word(f, l + 14) == r.crc && Word(f, l + 18) == |r.body| && Word(f, l + 22) == r.usize
    && var at := l + 30 + Half(f, l + 26) + Half(f, l + 28);
       at + |r.body| <= place <= 0xFFFF_FFFF && f[at..at + |r.body|] == r.body
  }

  /** What the format of such an archive allows: no encryption, sizes known in front, stored or deflated, sizes
      below the ZIP64 marks, and a name of a file. */
  predicate Ordinary(r: Filed) {
    && !Bit(r.flags, 0) && !Bit(r.flags, 3) && (r.packing == 8 || (r.packing == 0 && r.usize == |r.body|))
    && |r.body| < 0xFFFF_FFFF && r.usize < 0xFFFF_FFFF && r.header < 0xFFFF_FFFF
    && 0 < |r.name| < 256 && r.name[|r.name| - 1] != '/' as int && (forall b <- r.name :: 0x20 <= b && b != 0x7F)
    && NameVerdict(r.name, r.flags) == Ok
  }

  ghost predicate There(f: seq<byte>, r: Filed, place: nat, end: nat)
    requires end <= |f|
  {
    Ordinary(r) && RecordThere(f, r, end) && HeaderThere(f, r, place)
  }

  /** The records lie one behind the other from p to q. */
  predicate InRow(f: seq<byte>, rs: seq<Filed>, p: nat, q: nat) {
    if rs == [] then p == q
    else rs[0].record == p && p + 46 <= |f| && InRow(f, rs[1..], p + RecordSize(f, p), q)
  }

  function Places(rs: seq<Filed>): (ps: seq<nat>)
    ensures |ps| == |rs| && forall i :: 0 <= i < |rs| ==> ps[i] == rs[i].record
  {
    if rs == [] then [] else [rs[0].record] + Places(rs[1..])
  }

  lemma RecordAccepted(f: seq<byte>, r: Filed, place: nat, end: nat)
    requires end <= |f| && There(f, r, place, end)
    ensures RecordVerdict(f, r.record, end) == Ok && Inside(f, r.record) && !IsDirectory(f, r.record)
  {
    hide Half, Word, Marks, Bit, NameVerdict, HeaderThere;
    var p, raw := r.record, RawName(f, r.record);
    assert raw[|raw| - 1] == f[p + 46 + |raw| - 1];
  }

  lemma HeaderAccepted(f: seq<byte>, r: Filed, place: nat, end: nat)
    requires end <= |f| && There(f, r, place, end) && Inside(f, r.record)
    ensures LocalVerdict(f, r.record, place) == Ok && HasLocal(f, r.record)
  {
    hide Half, Word, Marks, Bit, NameVerdict;
  }

  lemma {:induction false} RecordsFound(f: seq<byte>, rs: seq<Filed>, p: nat, place: nat, end: nat)
    requires end <= |f| && (forall r <- rs :: There(f, r, place, end)) && InRow(f, rs, p, end)
    ensures Records(f, p, |rs|, end) == Success(Listing(Places(rs), end)) && AllInside(f, Places(rs))
    decreases |rs|
  {
    hide There, RecordVerdict, Inside, IsDirectory, RecordSize;
    if rs != [] {
      RecordAccepted(f, rs[0], place, end);
      RecordsFound(f, rs[1..], p + RecordSize(f, p), place, end);
    }
  }

  lemma {:induction false} HeadersFound(f: seq<byte>, rs: seq<Filed>, place: nat, end: nat)
    requires end <= |f| && (forall r <- rs :: There(f, r, place, end)) && AllInside(f, Places(rs))
    ensures LocalsVerdict(f, Places(rs), place) == Ok
    ensures forall i :: 0 <= i < |rs| ==> HasLocal(f, Places(rs)[i])
    decreases |rs|
  {
    hide There, Inside, LocalVerdict, HasLocal;
    if rs != [] {
      assert Inside(f, Places(rs)[0]) && Places(rs)[1..] == Places(rs[1..]);
      HeaderAccepted(f, rs[0], place, end);
      HeadersFound(f, rs[1..], place, end);
    }
  }

  /** The entry opened is the one filed: its name read, its numbers, and its payload, wherever the extra field
      has put it. */
  ghost predicate Opens(f: seq<byte>, e: Entry, r: Filed) {
    && e.name == NameRead(r.name) && e.packing == r.packing && e.crc == r.crc && e.usize == r.usize
    && e.csize == |r.body| && !e.Staged() && StoredBody(map[HERE := f], HERE, e) == r.body
  }

  lemma OpensOne(f: seq<byte>, e: Entry, r: Filed, place: nat, end: nat)
    requires end <= |f| && There(f, r, place, end) && Tells(f, r.record, e)
    ensures Opens(f, e, r)
  {
    hide Half, Word, Marks, Bit, NameVerdict, NameRead;
  }

  /** A file whose last end record tells of entries that are all there opens as these entries, in this order. */
  lemma OpensWhatIsThere(f: seq<byte>, e: nat, rs: seq<Filed>)
    requires EndsAt(f, e) && (forall d: nat :: e < d ==> !EndsAt(f, d)) && EndVerdict(f, e) == Ok
    requires var count, size, place := Half(f, e + 10), Word(f, e + 12), Word(f, e + 16);
             && |rs| == count && (size == 0 <==> rs == []) && size <= 0x400_0000
             && (forall r <- rs :: There(f, r, place, place + size)) && InRow(f, rs, place, place + size)
    requires forall i, j :: 0 <= i < j < |rs| ==> NameRead(rs[i].name) != NameRead(rs[j].name)
    ensures Load(f).Success? && |Load(f).value.entries| == |rs| && Load(f).value.cdrOffset == Word(f, e + 16)
    ensures forall i :: 0 <= i < |rs| ==> Opens(f, Load(f).value.entries[i], rs[i])
  {
    hide EndsAt, Half, Word, There, Section, Opens, NameRead, Load, EndVerdict;
    EndInside(f, e);
    var size, place := Word(f, e + 12), Word(f, e + 16);
    ZipOpensExactly(f);
    SectionFound(f, rs, place, size);
    var es := Section(f, place, size, |rs|).value;
    forall i | 0 <= i < |rs| ensures es[i].name == NameRead(rs[i].name) {
      NameOfOpened(f, es[i], rs[i]);
    }
  }

  lemma SectionFound(f: seq<byte>, rs: seq<Filed>, place: nat, size: nat)
    requires place + size <= |f| && (size == 0 <==> rs == []) && size <= 0x400_0000
    requires (forall r <- rs :: There(f, r, place, place + size)) && InRow(f, rs, place, place + size)
    ensures var es := Section(f, place, size, |rs|);
            es.Success? && |es.value| == |rs| && forall i :: 0 <= i < |rs| ==> Opens(f, es.value[i], rs[i])
  {
    hide There, Records, LocalsVerdict, Tells, Opens, AllInside, HasLocal, InRow;
    if rs != [] {
      RecordsFound(f, rs, place, place, place + size);
      HeadersFound(f, rs, place, place + size);
      var es := EntriesAt(f, Places(rs));
      forall i | 0 <= i < |rs| ensures Opens(f, es[i], rs[i]) {
        OpensOne(f, es[i], rs[i], place, place + size);
      }
    }
  }

  lemma NameOfOpened(f: seq<byte>, e: Entry, r: Filed)
    requires Opens(f, e, r)
    ensures e.name == NameRead(r.name)
  {}

  lemma EndInside(f: seq<byte>, e: nat)
    requires EndsAt(f, e) && EndVerdict(f, e) == Ok
    ensures e + 22 <= |f| && Word(f, e + 16) + Word(f, e + 12) <= |f|
  {
    hide Half, Word;
  }
}
