/** Bytes, little-endian fields and in-place splices of byte strings: the vocabulary the
    format and disk modules share. */
module ByteStrings {
  type byte = x: int | 0 <= x < 0x100
  type u16 = x: int | 0 <= x < 0x1_0000
  type u32 = x: int | 0 <= x < 0x1_0000_0000

  const U16_MAX := 0xFFFF
  const U32_MAX := 0xFFFF_FFFF

  datatype Option<+T> = None | Some(value: T)

  function Min(a: int, b: int): int {
    if a < b then a else b
  }

  function Repeat(b: byte, n: nat): (s: seq<byte>)
    ensures |s| == n
    ensures forall k :: 0 <= k < n ==> s[k] == b
  {
    seq(n, _ => b)
  }

  // ----- Little-endian fields -----

  /** How many values n bytes can say. */
  function Span(n: nat): (r: nat)
    ensures r > 0
  {
    if n == 0 then 1 else 0x100 * Span(n - 1)
  }

  /** The n low bytes of v, the least significant first. */
  function LittleEndian(v: nat, n: nat): (s: seq<byte>)
    ensures |s| == n
  {
    if n == 0 then [] else [v % 0x100] + LittleEndian(v / 0x100, n - 1)
  }

  function FromLittleEndian(s: seq<byte>): (v: nat)
    ensures v < Span(|s|)
  {
    if s == [] then 0 else s[0] + 0x100 * FromLittleEndian(s[1..])
  }

  function U16Bytes(v: u16): (s: seq<byte>)
    ensures |s| == 2
  {
    LittleEndian(v, 2)
  }

  function U32Bytes(v: u32): (s: seq<byte>)
    ensures |s| == 4
  {
    LittleEndian(v, 4)
  }

  function ReadU16(s: seq<byte>): u16
    requires |s| == 2
  {
    Spans();
    FromLittleEndian(s)
  }

  function ReadU32(s: seq<byte>): u32
    requires |s| == 4
  {
    Spans();
    FromLittleEndian(s)
  }

  lemma Spans()
    ensures Span(2) == 0x1_0000 && Span(4) == 0x1_0000_0000
  {
    assert Span(0) == 1 && Span(1) == 0x100 && Span(3) == 0x100_0000;
  }

  /** Reading what was written gives the value, if it fits the field. */
  lemma {:induction false} LittleEndianBack(v: nat, n: nat)
    ensures FromLittleEndian(LittleEndian(v, n)) == v <==> v < Span(n)
  {
    if n > 0 {
      LittleEndianBack(v / 0x100, n - 1);
      assert LittleEndian(v, n)[1..] == LittleEndian(v / 0x100, n - 1);
    }
  }

  /** A field's bytes are told by its value. */
  lemma {:induction false} FromLittleEndianBack(s: seq<byte>)
    ensures LittleEndian(FromLittleEndian(s), |s|) == s
  {
    if s != [] {
      FromLittleEndianBack(s[1..]);
      assert FromLittleEndian(s) / 0x100 == FromLittleEndian(s[1..]);
    }
  }

  /** The bytes of a field, written out. */
  lemma LowBytes(v: nat)
    ensures LittleEndian(v, 2) == [v % 0x100, v / 0x100 % 0x100]
    ensures LittleEndian(v, 4) == [v % 0x100, v / 0x100 % 0x100, v / 0x1_0000 % 0x100, v / 0x100_0000 % 0x100]
  {
    assert v / 0x100 / 0x100 == v / 0x1_0000 && v / 0x1_0000 / 0x100 == v / 0x100_0000;
    assert LittleEndian(v / 0x100_0000, 1) == [v / 0x100_0000 % 0x100];
    assert LittleEndian(v / 0x1_0000, 2) == [v / 0x1_0000 % 0x100] + LittleEndian(v / 0x100_0000, 1);
    assert LittleEndian(v / 0x100, 3) == [v / 0x100 % 0x100] + LittleEndian(v / 0x1_0000, 2);
    assert LittleEndian(v / 0x100, 1) == [v / 0x100 % 0x100];
  }

  lemma U16RoundTrip(n: u16)
    ensures ReadU16(U16Bytes(n)) == n
  {
    Spans();
    LittleEndianBack(n, 2);
  }

  lemma U32RoundTrip(n: u32)
    ensures ReadU32(U32Bytes(n)) == n
  {
    Spans();
    LittleEndianBack(n, 4);
  }

  // ----- Overwriting part of a file -----

  /** f with d written at position p; a gap before p reads as zeros, and writing nothing changes
      nothing. */
  function Splice(f: seq<byte>, p: nat, d: seq<byte>): (r: seq<byte>)
    ensures d == [] ==> r == f
    ensures d != [] ==> |r| == if p + |d| > |f| then p + |d| else |f|
  {
    if d == [] then f
    else if p > |f| then f + Repeat(0, p - |f|) + d
    else if p + |d| >= |f| then f[..p] + d
    else f[..p] + d + f[p + |d|..]
  }

  /** Writing two pieces one after the other is writing their concatenation. */
  lemma SpliceTwice(f: seq<byte>, p: nat, a: seq<byte>, b: seq<byte>)
    ensures Splice(Splice(f, p, a), p + |a|, b) == Splice(f, p, a + b)
  {
    if a == [] {
      assert a + b == b;
    } else if b == [] {
      assert a + b == a;
    } else {
      var once, twice := Splice(f, p, a + b), Splice(Splice(f, p, a), p + |a|, b);
      assert |once| == |twice|;
      forall i | 0 <= i < |once| ensures once[i] == twice[i] {
        if i < p {
        } else if i < p + |a| {
          assert once[i] == a[i - p];
        } else if i < p + |a| + |b| {
          assert once[i] == b[i - p - |a|];
        }
      }
    }
  }

  /** A write leaves what lies entirely before or after it as it was. */
  lemma SpliceElsewhere(f: seq<byte>, p: nat, d: seq<byte>, from: nat, to: nat)
    requires from <= to <= |f| && (to <= p || p + |d| <= from || from == to)
    ensures to <= |Splice(f, p, d)| && Splice(f, p, d)[from..to] == f[from..to]
  {
  }

  /** What was written can be read back. */
  lemma SpliceHere(f: seq<byte>, p: nat, d: seq<byte>)
    requires d != []
    ensures Splice(f, p, d)[p..p + |d|] == d
  {
  }
}
