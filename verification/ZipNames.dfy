/** Names of ZIP entries: UTF-8 inside the program, UTF-8 or code page 437 in a file (section 4.4.4 of
    the PKWARE APPNOTE). */
module ZipNames {
  import opened ByteStrings
  import Utf8

  const NAME_BUFFER := 256

  /** The general-purpose flag bit that says a name is UTF-8. */
  const UTF8_FLAG: u16 := 0x800

  predicate FlagSet(flags: u16) { flags / 0x800 % 2 == 1 }

  // ----- Code page 437 -----

  // The code points of bytes 0x80 to 0xFF, sixteen to a row.
  const ROW_8: seq<u16> :=
    [0xC7, 0xFC, 0xE9, 0xE2, 0xE4, 0xE0, 0xE5, 0xE7, 0xEA, 0xEB, 0xE8, 0xEF, 0xEE, 0xEC, 0xC4, 0xC5]
  const ROW_9: seq<u16> :=
    [0xC9, 0xE6, 0xC6, 0xF4, 0xF6, 0xF2, 0xFB, 0xF9, 0xFF, 0xD6, 0xDC, 0xA2, 0xA3, 0xA5, 0x20A7, 0x192]
  const ROW_A: seq<u16> :=
    [0xE1, 0xED, 0xF3, 0xFA, 0xF1, 0xD1, 0xAA, 0xBA, 0xBF, 0x2310, 0xAC, 0xBD, 0xBC, 0xA1, 0xAB, 0xBB]
  const ROW_B: seq<u16> :=
    [0x2591, 0x2592, 0x2593, 0x2502, 0x2524, 0x2561, 0x2562, 0x2556, 0x2555, 0x2563, 0x2551, 0x2557, 0x255D, 0x255C,
     0x255B, 0x2510]
  const ROW_C: seq<u16> :=
    [0x2514, 0x2534, 0x252C, 0x251C, 0x2500, 0x253C, 0x255E, 0x255F, 0x255A, 0x2554, 0x2569, 0x2566, 0x2560, 0x2550,
     0x256C, 0x2567]
  const ROW_D: seq<u16> :=
    [0x2568, 0x2564, 0x2565, 0x2559, 0x2558, 0x2552, 0x2553, 0x256B, 0x256A, 0x2518, 0x250C, 0x2588, 0x2584, 0x258C,
     0x2590, 0x2580]
  const ROW_E: seq<u16> :=
    [0x3B1, 0xDF, 0x393, 0x3C0, 0x3A3, 0x3C3, 0xB5, 0x3C4, 0x3A6, 0x398, 0x3A9, 0x3B4, 0x221E, 0x3C6, 0x3B5, 0x2229]
  const ROW_F: seq<u16> :=
    [0x2261, 0xB1, 0x2265, 0x2264, 0x2320, 0x2321, 0xF7, 0x2248, 0xB0, 0x2219, 0xB7, 0x221A, 0x207F, 0xB2, 0x25A0, 0xA0]

  function HighRow(r: nat): (row: seq<u16>)
    requires 8 <= r < 16
    ensures |row| == 16
  {
    match r
    case 8 => ROW_8
    case 9 => ROW_9
    case 10 => ROW_A
    case 11 => ROW_B
    case 12 => ROW_C
    case 13 => ROW_D
    case 14 => ROW_E
    case _ => ROW_F
  }

  function CodePoint(b: byte): u16
    requires b >= 0x80
  {
    HighRow(b / 16)[b % 16]
  }

  /** No entry of the table is ASCII or a surrogate. */
  lemma TableIsSafe(b: byte)
    requires b >= 0x80
    ensures 0x80 <= CodePoint(b) < 0xD800
  {}

  /** UTF-8 for a code point of at most 16 bits. */
  function EncodeBmp(cp: u16): (c: seq<byte>)
    ensures 1 <= |c| <= 3
  {
    if cp < 0x80 then [cp]
    else if cp < 0x800 then [0xC0 + cp / 0x40, 0x80 + cp % 0x40]
    else [0xE0 + cp / 0x1000, 0x80 + cp / 0x40 % 0x40, 0x80 + cp % 0x40]
  }

  lemma EncodedIsChar(cp: u16)
    requires cp < 0xD800
    ensures Utf8.IsChar(EncodeBmp(cp))
  {}

  function Decode437(b: byte): (c: seq<byte>)
    ensures 1 <= |c| <= 3
  {
    if b < 0x80 then [b] else EncodeBmp(CodePoint(b))
  }

  lemma Decoded437IsChar(b: byte)
    ensures Utf8.IsChar(Decode437(b))
  {
    if b >= 0x80 {
      TableIsSafe(b);
      EncodedIsChar(CodePoint(b));
    }
  }

  /** A name in code page 437, in UTF-8. */
  function Expand(src: seq<byte>): seq<byte> {
    if src == [] then [] else Decode437(src[0]) + Expand(src[1..])
  }

  lemma {:induction false} ExpandedIsWellFormed(src: seq<byte>)
    ensures Utf8.WellFormed(Expand(src))
  {
    hide Utf8.IsChar, Decode437;
    if src != [] {
      ExpandedIsWellFormed(src[1..]);
      Decoded437IsChar(src[0]);
      Utf8.WellFormedPrepend(Decode437(src[0]), Expand(src[1..]));
    }
  }

  // ----- Reading a name from a file -----

  datatype Decoded = Name(name: seq<byte>) | TooLong | NotUtf8

  /** Valid UTF-8 stands for itself. Anything else is code page 437, unless the flag claims that it is
      UTF-8. The result and a terminator have to fit the buffer. */
  function DecodeName(src: seq<byte>, flags: u16, cap: nat): (d: Decoded)
    ensures d.Name? ==> |d.name| < cap
  {
    if cap == 0 then TooLong
    else if Utf8.WellFormed(src) then if |src| + 1 > cap then TooLong else Name(src)
    else if FlagSet(flags) then NotUtf8
    else if |Expand(src)| + 1 > cap then TooLong
    else Name(Expand(src))
  }

  method DecodeEntryName(src: array<byte>, flags: u16, dst: array<byte>) returns (n: int)
    requires src != dst
    modifies dst
    ensures match DecodeName(src[..], flags, dst.Length)
            case Name(name) => n == |name| && n < dst.Length && dst[..n] == name && dst[n] == 0
            case TooLong => n == -1
            case NotUtf8 => n == -2
  {
    hide Utf8.WellFormed, Decode437;
    if dst.Length == 0 { return -1; }
    ghost var s := src[..];
    var valid := Utf8.IsValid(src);
    if valid {
      if src.Length + 1 > dst.Length { return -1; }
      for i := 0 to src.Length
        invariant src[..] == s && dst[..i] == s[..i]
      {
        dst[i] := src[i];
      }
      dst[src.Length] := 0;
      return src.Length;
    }
    if FlagSet(flags) { return -2; }
    var out := 0;
    assert s[0..] == s && [] + Expand(s) == Expand(s);
    for i := 0 to src.Length
      invariant src[..] == s && 0 <= out < dst.Length && dst[..out] + Expand(s[i..]) == Expand(s)
    {
      assert s[i..][0] == src[i] && s[i..][1..] == s[i + 1..];
      var c := Decode437(src[i]);
      assert |Expand(s)| == out + |c| + |Expand(s[i + 1..])|;
      if out + |c| >= dst.Length { return -1; }
      PutChar(dst, out, c);
      assert dst[..out + |c|] == dst[..out] + c;
      out := out + |c|;
    }
    assert s[src.Length..] == [];
    dst[out] := 0;
    return out;
  }

  method PutChar(dst: array<byte>, at: nat, c: seq<byte>)
    requires at + |c| < dst.Length
    modifies dst
    ensures dst[..at] == old(dst[..at]) && dst[at..at + |c|] == c
  {
    for k := 0 to |c|
      invariant dst[..at] == old(dst[..at]) && dst[at..at + k] == c[..k]
    {
      dst[at + k] := c[k];
    }
  }

  // ----- Writing a name -----

  predicate HasHighByte(name: seq<byte>) {
    exists b <- name :: b > 0x7F
  }

  /** The flags a name is written with. */
  function GpFlags(name: seq<byte>): u16 {
    if HasHighByte(name) && Utf8.WellFormed(name) then UTF8_FLAG else 0
  }

  method GpFlagsForName(name: array<byte>) returns (flags: u16)
    ensures flags == GpFlags(name[..])
  {
    hide Utf8.WellFormed;
    var hasHigh := false;
    for i := 0 to name.Length
      invariant !hasHigh && forall k :: 0 <= k < i ==> name[k] <= 0x7F
    {
      if name[i] > 0x7F {
        hasHigh := true;
        assert name[i] in name[..];
        break;
      }
    }
    if !hasHigh { return 0; }
    var valid := Utf8.IsValid(name);
    return if valid then UTF8_FLAG else 0;
  }

  // ----- Stability -----

  /** Whatever a name was in the file, it is valid UTF-8 once read, and fits. */
  lemma DecodedIsWellFormed(src: seq<byte>, flags: u16, cap: nat)
    requires DecodeName(src, flags, cap).Name?
    ensures var n := DecodeName(src, flags, cap).name; Utf8.WellFormed(n) && |n| < cap
  {
    hide Utf8.WellFormed, Expand;
    ExpandedIsWellFormed(src);
  }

  /** A name comes back from a file as it was written exactly if it is valid UTF-8; a byte string that
      is not comes back as something else, or not at all. */
  lemma ComesBackIffUtf8(name: seq<byte>, cap: nat)
    requires |name| < cap
    ensures DecodeName(name, GpFlags(name), cap) == Name(name) <==> Utf8.WellFormed(name)
    ensures DecodeName(name, GpFlags(name), cap) != NotUtf8
  {
    hide Utf8.WellFormed, Expand, HasHighByte;
    ExpandedIsWellFormed(name);
  }

  /** So reading, writing and reading again gives what the first reading gave. */
  lemma DecodingIsStable(src: seq<byte>, flags: u16, cap: nat)
    requires DecodeName(src, flags, cap).Name?
    ensures var n := DecodeName(src, flags, cap).name; DecodeName(n, GpFlags(n), cap) == Name(n)
  {
    hide Utf8.WellFormed, Expand, HasHighByte;
    DecodedIsWellFormed(src, flags, cap);
    ComesBackIffUtf8(DecodeName(src, flags, cap).name, cap);
  }

  predicate Control(b: byte) { b < 0x20 || b == 0x7F }

  /** Decoding neither makes a name empty nor puts control bytes or a new last ASCII byte into it. */
  lemma {:induction false} ExpandedKeepsAscii(src: seq<byte>)
    requires forall b <- src :: !Control(b)
    ensures forall b <- Expand(src) :: !Control(b)
    ensures src != [] ==>
      Expand(src) != [] && (Expand(src)[|Expand(src)| - 1] < 0x80 ==> Expand(src)[|Expand(src)| - 1] == src[|src| - 1])
  {
    hide CodePoint;
    if src != [] {
      var rest := src[1..];
      ExpandedKeepsAscii(rest);
      DecodedKeepsAscii(src[0]);
      assert Expand(src) == Decode437(src[0]) + Expand(rest);
      if rest != [] {
        assert Expand(src)[|Expand(src)| - 1] == Expand(rest)[|Expand(rest)| - 1];
      }
    }
  }

  lemma DecodedKeepsAscii(b: byte)
    requires !Control(b)
    ensures forall c <- Decode437(b) :: !Control(c)
    ensures var c := Decode437(b); c[|c| - 1] < 0x80 ==> c[|c| - 1] == b
  {
    hide CodePoint;
    if b >= 0x80 { TableIsSafe(b); }
  }
}
