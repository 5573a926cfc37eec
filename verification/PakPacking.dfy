/** What an add stores for a payload: Daikatana packs some of its entries, everything else is stored
    as it is. */
module PakPacking {
  import opened ByteStrings
  import opened PakFormat
  import opened PakStates
  import opened Disks
  import EntryNames
  import DkCodec

  /** The format packs, the name has one of the packed extensions, and packing is worth it and safe. */
  predicate WorthPacking(fmt: Format, name: seq<byte>, data: seq<byte>) {
    && fmt.Daikatana? && data != [] && EntryNames.Compressible(name)
    && DkCodec.WorstCase(|data|) <= U32_MAX && |DkCodec.Encode(data)| < |data|
  }

  /** What an add of this data stores, when nothing goes wrong. */
  function Stored(fmt: Format, name: seq<byte>, data: seq<byte>): seq<byte> {
    if WorthPacking(fmt, name, data) then DkCodec.Encode(data) else data
  }

  /** The payload to store; packing is given up when there is no memory for it. */
  method Pack(disk: Disk, fmt: Format, name: seq<byte>, data: seq<byte>)
    returns (body: seq<byte>, packed: bool, ghost starved: bool)
    modifies disk`trouble
    ensures disk.trouble == (old(disk.trouble) || starved)
    ensures packed <==> WorthPacking(fmt, name, data) && !starved
    ensures body == if packed then DkCodec.Encode(data) else data
  {
    hide DkCodec.Encode, EntryNames.Compressible;
    var haveMemory := disk.Works();
    starved := !haveMemory;
    if fmt.Daikatana? && data != [] && EntryNames.Compressible(name) && DkCodec.WorstCase(|data|) <= U32_MAX
      && haveMemory {
      var source := new byte[|data|](i requires 0 <= i < |data| => data[i]);
      var encoded := new byte[DkCodec.WorstCase(|data|)];
      assert source[..] == data;
      var status, n := DkCodec.Deflate(source, encoded);
      if status.Ok? && n < |data| {
        return encoded[..n], true, starved;
      }
    }
    return data, false, starved;
  }

  /** The item is what an add of this data makes: packed or stored, and packed if it is worth it
      unless something went wrong. */
  ghost predicate Stores(fmt: Format, name: seq<byte>, data: seq<byte>, item: Item, trouble: bool) {
    && item == Item(name, |data|, item.compressed, if item.compressed then DkCodec.Encode(data) else data)
    && (item.compressed ==> WorthPacking(fmt, name, data))
    && (!trouble ==> (item.compressed <==> WorthPacking(fmt, name, data)))
  }

  /** What is stored stands for the data, and takes no more room. */
  lemma PackedMeansData(fmt: Format, name: seq<byte>, data: seq<byte>, item: Item, trouble: bool)
    requires Stores(fmt, name, data, item, trouble)
    ensures item.Denotes(data) && item.name == name && item.length == |data| && |item.body| <= |data|
    ensures if item.compressed then fmt.Compresses() && DkCodec.Accepts(item.body, item.length) else item.body == data
  {
    hide DkCodec.Encode;
    DkCodec.RoundTrip(data);
  }

  lemma PackStores(fmt: Format, name: seq<byte>, data: seq<byte>, body: seq<byte>, packed: bool, starved: bool,
                   trouble: bool)
    requires (packed <==> WorthPacking(fmt, name, data) && !starved) && body == if packed then DkCodec.Encode(data)
      else data
    requires starved ==> trouble
    ensures Stores(fmt, name, data, Item(name, |data|, packed, body), trouble)
  {
    hide DkCodec.Encode, WorthPacking;
  }

  lemma StoresLater(fmt: Format, name: seq<byte>, data: seq<byte>, item: Item, trouble: bool, later: bool)
    requires Stores(fmt, name, data, item, trouble) && (trouble ==> later)
    ensures Stores(fmt, name, data, item, later)
  {
    hide DkCodec.Encode, WorthPacking;
  }
}
