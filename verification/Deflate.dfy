/** The DEFLATE compressor, of which only its contract is known. */
module Deflate {
  import opened ByteStrings

  /** `deflate` gives nothing if it cannot make the data smaller; `inflate` unpacks a stream that must
      make exactly so many bytes and leave none of its own. */
  datatype Codec = Codec(deflate: seq<byte> -> Option<seq<byte>>, inflate: (seq<byte>, nat) -> Option<seq<byte>>)

  /** Unpacking undoes packing, and no stream is empty. */
  ghost predicate Lossless(c: Codec) {
    && (forall d: seq<byte> {:trigger c.deflate(d)} :: c.deflate(d).Some? ==>
          |c.deflate(d).value| < |d| && c.inflate(c.deflate(d).value, |d|) == Some(d))
    && (forall s: seq<byte>, n: nat {:trigger c.inflate(s, n)} :: c.inflate(s, n).Some? ==>
          s != [] && |c.inflate(s, n).value| == n)
  }
}
