/** Entry names: which ones are refused, and which ones Daikatana compresses. Names are C strings,
    held without their terminator. */
module EntryNames {
  import opened ByteStrings

  predicate Separator(c: byte) { c == 0x2F || c == 0x5C }

  predicate Control(c: byte) { c < 0x20 || c == 0x7F }

  function Upper(c: byte): byte {
    if 0x61 <= c <= 0x7A then c - 32 else c
  }

  function Lower(c: byte): byte {
    if 0x41 <= c <= 0x5A then c + 32 else c
  }

  /** CON PRN AUX NUL, and COM or LPT with a digit. */
  predicate ReservedDevice(base: seq<byte>) {
    var u := seq(|base|, i requires 0 <= i < |base| => Upper(base[i]));
    || u == [0x43, 0x4F, 0x4E] || u == [0x50, 0x52, 0x4E] || u == [0x41, 0x55, 0x58] || u == [0x4E, 0x55, 0x4C]
    || (|u| == 4 && (u[..3] == [0x43, 0x4F, 0x4D] || u[..3] == [0x4C, 0x50, 0x54]) && 0x30 <= u[3] <= 0x39)
  }

  /** The part before the first dot. */
  function BaseName(seg: seq<byte>): seq<byte> {
    if seg == [] || seg[0] == 0x2E then [] else [seg[0]] + BaseName(seg[1..])
  }

  predicate UnsafeSegment(seg: seq<byte>) {
    || seg == [] || seg == [0x2E] || seg == [0x2E, 0x2E]
    || (exists c <- seg :: Control(c) || c == 0x3A)
    || seg[|seg| - 1] == 0x2E || seg[|seg| - 1] == 0x20
    || ReservedDevice(BaseName(seg))
  }

  /** Whether some segment of path[from..] is unsafe, when the scan has reached p. */
  predicate UnsafeFrom(path: seq<byte>, from: nat, p: nat)
    requires from <= p <= |path|
    decreases |path| - p
  {
    if p == |path| then UnsafeSegment(path[from..p])
    else if Separator(path[p]) then UnsafeSegment(path[from..p]) || UnsafeFrom(path, p + 1, p + 1)
    else UnsafeFrom(path, from, p + 1)
  }

  predicate UnsafeName(path: seq<byte>) {
    path == [] || Separator(path[0]) || UnsafeFrom(path, 0, 0)
  }

  method IsUnsafeName(path: seq<byte>) returns (unsafe: bool)
    ensures unsafe == UnsafeName(path)
  {
    hide UnsafeSegment;
    if path == [] || Separator(path[0]) {
      return true;
    }
    var from, p := 0, 0;
    while true
      invariant 0 <= from <= p <= |path|
      invariant UnsafeFrom(path, 0, 0) == UnsafeFrom(path, from, p)
      decreases |path| - p
    {
      if p == |path| || Separator(path[p]) {
        if UnsafeSegment(path[from..p]) {
          return true;
        }
        if p == |path| {
          return false;
        }
        from := p + 1;
      }
      p := p + 1;
    }
  }

  lemma {:induction false} SafeFrom(path: seq<byte>, from: nat, p: nat)
    requires from <= p <= |path| && !UnsafeFrom(path, from, p)
    requires forall c <- path[from..p] :: !Separator(c)
    ensures forall c <- path[from..] :: !Control(c)
    ensures path[from..] != [] && var z := path[|path| - 1]; !Separator(z) && z != 0x2E && z != 0x20
    decreases |path| - p
  {
    hide ReservedDevice;
    if p == |path| {
      assert path[from..p] == path[from..];
    } else if Separator(path[p]) {
      SafeFrom(path, p + 1, p + 1);
      assert path[from..] == path[from..p] + [path[p]] + path[p + 1..];
    } else {
      assert path[from..p + 1] == path[from..p] + [path[p]];
      SafeFrom(path, from, p + 1);
    }
  }

  /** A name that is not refused is not empty, has no control bytes and does not end in a
      separator, a dot or a space. */
  lemma SafeName(path: seq<byte>)
    requires !UnsafeName(path)
    ensures path != [] && forall c <- path :: !Control(c)
    ensures var z := path[|path| - 1]; !Separator(z) && z != 0x2E && z != 0x20
  {
    SafeFrom(path, 0, 0);
    assert path[0..] == path;
  }

  /** tga, bmp, wal, pcx, bsp. */
  const EXTENSIONS: seq<seq<byte>> :=
    [[0x74, 0x67, 0x61], [0x62, 0x6D, 0x70], [0x77, 0x61, 0x6C], [0x70, 0x63, 0x78], [0x62, 0x73, 0x70]]

  predicate Compressible(name: seq<byte>) {
    var n := |name|;
    n >= 4 && name[n - 4] == 0x2E && [Lower(name[n - 3]), Lower(name[n - 2]), Lower(name[n - 1])] in EXTENSIONS
  }
}
