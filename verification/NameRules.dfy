/** The rules for entry names as they are documented, character by character. The scan that applies them and
    the check for packed extensions are held against these. */
module NameRules {
  import opened ByteStrings
  import opened EntryNames

  /** The byte is this character; a letter may be in the other case. */
  predicate SameLetter(b: byte, c: char) {
    var v := c as int;
    || b == v
    || ('A' <= c <= 'Z' && b == v + 32)
    || ('a' <= c <= 'z' && b == v - 32)
  }

  predicate Reads(s: seq<byte>, w: string) {
    |s| == |w| && forall k :: 0 <= k < |w| ==> SameLetter(s[k], w[k])
  }

  /** The segment starts with n bytes and has at most an extension behind them. */
  predicate Stem(seg: seq<byte>, n: nat) {
    n <= |seg| && (|seg| == n || seg[n] == '.' as int)
  }

  predicate ReadsDevice(s: seq<byte>) {
    Reads(s, "CON") || Reads(s, "PRN") || Reads(s, "AUX") || Reads(s, "NUL")
  }

  predicate ReadsPort(s: seq<byte>) {
    Reads(s, "COM") || Reads(s, "LPT")
  }

  /** A device, or a device with an extension. */
  predicate NamesDevice(seg: seq<byte>) {
    || (Stem(seg, 3) && ReadsDevice(seg[..3]))
    || (Stem(seg, 4) && ReadsPort(seg[..3]) && '0' as int <= seg[3] <= '9' as int)
  }

  /** No control bytes, no colon, no dot or space at the end, which rules out "." and "..", and no device. */
  predicate SafeSegment(seg: seq<byte>) {
    && seg != []
    && (forall c <- seg :: 0x20 <= c && c != 0x7F && c != ':' as int)
    && seg[|seg| - 1] != '.' as int && seg[|seg| - 1] != ' ' as int
    && !NamesDevice(seg)
  }

  predicate Slash(b: byte) { b == '/' as int || b == '\\' as int }

  /** A stretch between two slashes, or between one and an end of the name. */
  predicate Segment(path: seq<byte>, from: nat, to: nat) {
    && from <= to <= |path|
    && (from == 0 || Slash(path[from - 1])) && (to == |path| || Slash(path[to]))
    && forall k :: from <= k < to ==> !Slash(path[k])
  }

  /** Every segment of the name is safe. */
  ghost predicate SafelyNamed(name: seq<byte>) {
    forall a: nat, b: nat :: Segment(name, a, b) ==> SafeSegment(name[a..b])
  }

  // ----- Devices -----

  function Uppers(s: seq<byte>): (u: seq<byte>)
    ensures |u| == |s| && forall k :: 0 <= k < |s| ==> u[k] == Upper(s[k])
  {
    seq(|s|, i requires 0 <= i < |s| => Upper(s[i]))
  }

  lemma {:induction false} BaseNameEnds(seg: seq<byte>)
    ensures var b := BaseName(seg);
            && b <= seg && (forall c <- b :: c != 0x2E) && (|b| == |seg| || seg[|b|] == 0x2E)
  {
    if seg != [] && seg[0] != 0x2E { BaseNameEnds(seg[1..]); }
  }

  lemma ThreeLetters(s: seq<byte>, w: string)
    requires |w| == 3 && forall c <- w :: 'A' <= c <= 'Z'
    ensures Reads(s, w) <==> Uppers(s) == [w[0] as int, w[1] as int, w[2] as int]
  {
    assert w[0] in w && w[1] in w && w[2] in w;
  }

  lemma DeviceReads(s: seq<byte>)
    ensures ReadsDevice(s)
      <==> Uppers(s) in [[0x43, 0x4F, 0x4E], [0x50, 0x52, 0x4E], [0x41, 0x55, 0x58], [0x4E, 0x55, 0x4C]]
    ensures ReadsPort(s) <==> Uppers(s) in [[0x43, 0x4F, 0x4D], [0x4C, 0x50, 0x54]]
  {
    hide Reads;
    ThreeLetters(s, "CON");
    ThreeLetters(s, "PRN");
    ThreeLetters(s, "AUX");
    ThreeLetters(s, "NUL");
    ThreeLetters(s, "COM");
    ThreeLetters(s, "LPT");
  }

  /** Where a device is read there is no dot. */
  lemma ReadsLetters(s: seq<byte>, w: string)
    requires |w| == 3 && 'A' <= w[0] <= 'Z' && 'A' <= w[1] <= 'Z' && 'A' <= w[2] <= 'Z' && Reads(s, w)
    ensures |s| == 3 && forall k :: 0 <= k < 3 ==> s[k] != 0x2E
  {}

  lemma DeviceLetters(s: seq<byte>)
    requires ReadsDevice(s) || ReadsPort(s)
    ensures |s| == 3 && forall k :: 0 <= k < 3 ==> s[k] != 0x2E
  {
    hide Reads;
    if Reads(s, "CON") { ReadsLetters(s, "CON"); }
    if Reads(s, "PRN") { ReadsLetters(s, "PRN"); }
    if Reads(s, "AUX") { ReadsLetters(s, "AUX"); }
    if Reads(s, "NUL") { ReadsLetters(s, "NUL"); }
    if Reads(s, "COM") { ReadsLetters(s, "COM"); }
    if Reads(s, "LPT") { ReadsLetters(s, "LPT"); }
  }

  lemma StemIsBase(seg: seq<byte>, n: nat)
    requires n <= |seg| && forall k :: 0 <= k < n ==> seg[k] != 0x2E
    ensures |BaseName(seg)| == n <==> Stem(seg, n)
    ensures |BaseName(seg)| == n ==> BaseName(seg) == seg[..n]
  {
    BaseNameEnds(seg);
    var b := BaseName(seg);
    if |b| > n { assert b[n] in b; }
  }

  lemma DeviceIs(seg: seq<byte>)
    ensures ReservedDevice(BaseName(seg)) <==> NamesDevice(seg)
  {
    hide ReadsDevice, ReadsPort;
    BaseNameEnds(seg);
    var b := BaseName(seg);
    var u := Uppers(b);
    assert u == seq(|b|, i requires 0 <= i < |b| => Upper(b[i]));
    DeviceReads(b);
    if |seg| >= 3 {
      DeviceReads(seg[..3]);
      if |b| >= 3 {
        assert b[..3] == seg[..3] && u[..3] == Uppers(b[..3]);
        if |b| == 3 { assert b == b[..3]; }
      }
      if ReadsDevice(seg[..3]) || ReadsPort(seg[..3]) {
        DeviceLetters(seg[..3]);
        assert forall k :: 0 <= k < 3 ==> seg[k] == seg[..3][k];
        StemIsBase(seg, 3);
        if |seg| >= 4 && seg[3] != 0x2E { StemIsBase(seg, 4); }
      }
    }
  }

  lemma SegmentIs(seg: seq<byte>)
    ensures UnsafeSegment(seg) <==> !SafeSegment(seg)
  {
    hide ReservedDevice, NamesDevice;
    DeviceIs(seg);
  }

  // ----- Names -----

  lemma {:induction false} SafeFromExactly(path: seq<byte>, from: nat, p: nat)
    requires from <= p <= |path| && (from == 0 || Slash(path[from - 1]))
    requires forall k :: from <= k < p ==> !Slash(path[k])
    ensures !UnsafeFrom(path, from, p) <==>
              forall a: nat, b: nat :: from <= a && Segment(path, a, b) ==> SafeSegment(path[a..b])
    decreases |path| - p
  {
    hide UnsafeSegment, SafeSegment;
    SegmentIs(path[from..p]);
    if p == |path| {
      assert Segment(path, from, p);
      assert forall a: nat, b: nat :: from <= a && Segment(path, a, b) ==> a == from && b == p;
    } else if Slash(path[p]) {
      SafeFromExactly(path, p + 1, p + 1);
      assert Segment(path, from, p);
      assert forall a: nat, b: nat :: from <= a && Segment(path, a, b) ==> (a == from && b == p) || p + 1 <= a;
    } else {
      SafeFromExactly(path, from, p + 1);
    }
  }

  /** A name passes the scan exactly if every one of its segments is safe. */
  lemma SafeExactly(path: seq<byte>)
    ensures !UnsafeName(path) <==> SafelyNamed(path)
  {
    SafeFromExactly(path, 0, 0);
    if path == [] || Slash(path[0]) { assert Segment(path, 0, 0); }
  }

  /** The names whose entries are packed are those with one of five extensions. */
  lemma CompressibleExactly(name: seq<byte>)
    ensures Compressible(name) <==>
              && |name| >= 4
              && var e := name[|name| - 4..];
                 Reads(e, ".tga") || Reads(e, ".bmp") || Reads(e, ".wal") || Reads(e, ".pcx") || Reads(e, ".bsp")
  {
    hide Reads;
    if |name| >= 4 {
      var e := name[|name| - 4..];
      Extension(e, ".tga");
      Extension(e, ".bmp");
      Extension(e, ".wal");
      Extension(e, ".pcx");
      Extension(e, ".bsp");
      var low := [Lower(e[1]), Lower(e[2]), Lower(e[3])];
      assert low == [Lower(name[|name| - 3]), Lower(name[|name| - 2]), Lower(name[|name| - 1])];
      assert EXTENSIONS == [EXTENSIONS[0], EXTENSIONS[1], EXTENSIONS[2], EXTENSIONS[3], EXTENSIONS[4]];
    }
  }

  lemma Extension(e: seq<byte>, w: string)
    requires |e| == |w| == 4 && w[0] == '.' && 'a' <= w[1] <= 'z' && 'a' <= w[2] <= 'z' && 'a' <= w[3] <= 'z'
    ensures Reads(e, w) <==>
              e[0] == 0x2E && [Lower(e[1]), Lower(e[2]), Lower(e[3])] == [w[1] as int, w[2] as int, w[3] as int]
  {
    var a, b := [Lower(e[1]), Lower(e[2]), Lower(e[3])], [w[1] as int, w[2] as int, w[3] as int];
    assert a == b <==> a[0] == b[0] && a[1] == b[1] && a[2] == b[2];
  }
}
