/** Which names and payloads a PAK-class archive takes, told by the fields of a row, the rules for names and the
    reach of 32-bit numbers. */
module PakAdmission {
  import opened ByteStrings
  import opened Outcomes
  import opened PakFormat
  import opened PakArchives
  import opened EntryLists
  import PakOnDisk
  import PakPacking
  import EntryNames
  import NameRules
  import DkCodec

  const LAST := 0xFFFF_FFFF

  /** The longest names there are. */
  function LongestName(fmt: Format): nat {
    match fmt
    case Pak => 55
    case Daikatana => 55
    case Sin => 119
    case Iwad => 8
    case Pwad => 8
  }

  /** A name may be as long as its field, less a byte for the zero that ends it outside WADs. */
  lemma LongestNameFits(fmt: Format, name: seq<byte>)
    requires 0 !in name
    ensures |name| <= LongestName(fmt) <==>
              && |name| <= PakOnDisk.NameWidth(fmt)
              && (PakOnDisk.IsWad(fmt) || 0 in NameField(name, PakOnDisk.NameWidth(fmt)))
  {
    if |name| < PakOnDisk.NameWidth(fmt) {
      assert NameField(name, PakOnDisk.NameWidth(fmt))[|name|] == 0;
    } else if |name| == PakOnDisk.NameWidth(fmt) {
      assert NameField(name, |name|) == name;
    }
  }

  /** Some row has the name, and the format wants names to be unique. */
  predicate Taken(fmt: Format, rows: seq<Row>, name: seq<byte>) {
    !PakOnDisk.IsWad(fmt) && exists r <- rows :: r.name == name
  }

  /** A name is refused as too long, as unsafe, or as taken, in this order, and for no other reason. */
  lemma NameVerdict(fmt: Format, rows: seq<Row>, name: seq<byte>)
    ensures Preflight(fmt, rows, name) ==
              if |name| > LongestName(fmt) then LimitError
              else if !NameRules.SafelyNamed(name) then UnsafeName
              else if Taken(fmt, rows, name) then Duplicate
              else Ok
  {
    hide EntryNames.UnsafeName, IndexOf;
    NameRules.SafeExactly(name);
    var i := IndexOf(rows, name);
    if i < |rows| { assert rows[i] in rows; }
    forall r | r in rows && r.name == name ensures i < |rows| {
      var k :| 0 <= k < |rows| && rows[k] == r;
    }
  }

  /** What is packed: Daikatana entries with one of five extensions that get smaller by it. */
  lemma PackedExactly(fmt: Format, name: seq<byte>, data: seq<byte>)
    ensures PakPacking.WorthPacking(fmt, name, data) <==>
              && fmt == Daikatana && data != []
              && |name| >= 4
              && (var e := name[|name| - 4..];
                  || NameRules.Reads(e, ".tga") || NameRules.Reads(e, ".bmp") || NameRules.Reads(e, ".wal")
                  || NameRules.Reads(e, ".pcx") || NameRules.Reads(e, ".bsp"))
              && |data| + (|data| + 63) / 64 + 1 <= LAST && |DkCodec.Encode(data)| < |data|
  {
    hide DkCodec.Encode, EntryNames.Compressible, NameRules.Reads;
    NameRules.CompressibleExactly(name);
  }

  /** Bytes are added exactly if the archive is open, takes the name, and has room for what is stored of them. */
  lemma AddedExactly(fmt: Format, rows: seq<Row>, name: seq<byte>, data: seq<byte>, open: bool, atomic: bool, end: nat)
    ensures AddVerdict(fmt, rows, name, data, open, atomic, end) ==
              if !open then InvalidArgument
              else if |name| > LongestName(fmt) then LimitError
              else if !NameRules.SafelyNamed(name) then UnsafeName
              else if Taken(fmt, rows, name) then Duplicate
              else if |data| > LAST then LimitError
              else if !atomic && end + |PakPacking.Stored(fmt, name, data)| > LAST then LimitError
              else Ok
  {
    hide Preflight, NameRules.SafelyNamed, Taken, PakPacking.WorthPacking, DkCodec.Encode;
    NameVerdict(fmt, rows, name);
  }
}
