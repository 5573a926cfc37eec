/** UTF-8 checking and repair, against the grammar of section 4 of RFC 3629. */
module Utf8 {
  import opened ByteStrings

  // ----- The grammar -----

  predicate Tail(b: byte) { 0x80 <= b <= 0xBF }

  /** UTF8-char. */
  predicate IsChar(c: seq<byte>) {
    match |c|
    case 1 => c[0] <= 0x7F
    case 2 => 0xC2 <= c[0] <= 0xDF && Tail(c[1])
    case 3 =>
      && Tail(c[2])
      && ((c[0] == 0xE0 && 0xA0 <= c[1] <= 0xBF)
          || (0xE1 <= c[0] <= 0xEC && Tail(c[1]))
          || (c[0] == 0xED && 0x80 <= c[1] <= 0x9F)
          || (0xEE <= c[0] <= 0xEF && Tail(c[1])))
    case 4 =>
      && Tail(c[2]) && Tail(c[3])
      && ((c[0] == 0xF0 && 0x90 <= c[1] <= 0xBF)
          || (0xF1 <= c[0] <= 0xF3 && Tail(c[1]))
          || (c[0] == 0xF4 && 0x80 <= c[1] <= 0x8F))
    case _ => false
  }

  /** UTF8-octets: any number of characters, one after the other. */
  predicate WellFormed(s: seq<byte>)
    decreases |s|
  {
    s == [] || exists n :: 1 <= n <= 4 && n <= |s| && IsChar(s[..n]) && WellFormed(s[n..])
  }

  // ----- Length of the character at the front -----

  /** The two high bits mark a continuation byte. */
  predicate Continues(b: byte) { b / 0x40 == 2 }

  function CodePoint3(a: byte, b: byte, c: byte): nat {
    (a % 0x10) * 0x1000 + (b % 0x40) * 0x40 + c % 0x40
  }

  function CodePoint4(a: byte, b: byte, c: byte, d: byte): nat {
    (a % 0x08) * 0x4_0000 + (b % 0x40) * 0x1000 + (c % 0x40) * 0x40 + d % 0x40
  }

  function SeqLen(s: seq<byte>): nat {
    if s == [] then 0
    else if s[0] < 0x80 then 1
    else if s[0] / 0x20 == 6 then
      if s[0] < 0xC2 || |s| < 2 || !Continues(s[1]) then 0 else 2
    else if s[0] / 0x10 == 14 then
      if |s| < 3 || !Continues(s[1]) || !Continues(s[2]) then 0
      else
        var cp := CodePoint3(s[0], s[1], s[2]);
        if cp < 0x800 || 0xD800 <= cp <= 0xDFFF then 0 else 3
    else if s[0] / 0x08 == 30 then
      if s[0] > 0xF4 || |s| < 4 || !Continues(s[1]) || !Continues(s[2]) || !Continues(s[3]) then 0
      else
        var cp := CodePoint4(s[0], s[1], s[2], s[3]);
        if cp < 0x1_0000 || cp > 0x10_FFFF then 0 else 4
    else 0
  }

  /** It is the length of the one grammar character that s starts with, or 0 if there is none. */
  lemma SeqLenIsExact(s: seq<byte>, n: nat)
    requires 1 <= n <= |s|
    ensures SeqLen(s) == n <==> IsChar(s[..n])
  {
    if n == 3 && s[0] / 0x10 == 14 && Continues(s[1]) && Continues(s[2]) {
      Range3(s[0], s[1], s[2]);
    } else if n == 4 && s[0] / 0x08 == 30 && s[0] <= 0xF4 && Continues(s[1]) && Continues(s[2]) && Continues(s[3]) {
      Range4(s[0], s[1], s[2], s[3]);
    }
  }

  lemma Range3(a: byte, b: byte, c: byte)
    requires 0xE0 <= a <= 0xEF && Tail(b) && Tail(c)
    ensures CodePoint3(a, b, c) < 0x800 <==> a == 0xE0 && b < 0xA0
    ensures 0xD800 <= CodePoint3(a, b, c) <= 0xDFFF <==> a == 0xED && b > 0x9F
  {
  }

  lemma Range4(a: byte, b: byte, c: byte, d: byte)
    requires 0xF0 <= a <= 0xF4 && Tail(b) && Tail(c) && Tail(d)
    ensures CodePoint4(a, b, c, d) < 0x1_0000 <==> a == 0xF0 && b < 0x90
    ensures CodePoint4(a, b, c, d) > 0x10_FFFF <==> a == 0xF4 && b > 0x8F
  {
  }

  /** Reading one character at a time decides the grammar. */
  lemma WellFormedStep(s: seq<byte>)
    requires s != []
    ensures SeqLen(s) <= 4 && SeqLen(s) <= |s|
    ensures WellFormed(s) <==> SeqLen(s) > 0 && WellFormed(s[SeqLen(s)..])
  {
    hide SeqLen, IsChar;
    var k := SeqLen(s);
    SeqLenBound(s);
    if k > 0 { SeqLenIsExact(s, k); }
    forall n | 1 <= n <= 4 && n <= |s| && IsChar(s[..n]) ensures n == k {
      SeqLenIsExact(s, n);
    }
  }

  lemma SeqLenBound(s: seq<byte>)
    ensures SeqLen(s) <= 4 && SeqLen(s) <= |s|
  {}

  method IsValid(s: array<byte>) returns (ok: bool)
    ensures ok == WellFormed(s[..])
  {
    hide WellFormed, IsChar;
    var n := s.Length;
    var i := 0;
    assert s[0..] == s[..];
    while i < n
      invariant 0 <= i <= n
      invariant WellFormed(s[..]) == WellFormed(s[i..])
      decreases n - i
    {
      ghost var rest := s[i..];
      assert forall k :: 0 <= k < |rest| ==> rest[k] == s[i + k];
      WellFormedStep(rest);
      ghost var at := i;
      var c := s[i];
      if c < 0x80 {
        i := i + 1;
      } else if c / 0x20 == 6 {
        if c < 0xC2 { return false; }
        if i + 1 >= n { return false; }
        if !Continues(s[i + 1]) { return false; }
        i := i + 2;
      } else if c / 0x10 == 14 {
        if i + 2 >= n { return false; }
        if !Continues(s[i + 1]) { return false; }
        if !Continues(s[i + 2]) { return false; }
        var cp := CodePoint3(c, s[i + 1], s[i + 2]);
        if cp < 0x800 { return false; }
        if cp >= 0xD800 && cp <= 0xDFFF { return false; }
        i := i + 3;
      } else if c / 0x08 == 30 {
        if c > 0xF4 { return false; }
        if i + 3 >= n { return false; }
        if !Continues(s[i + 1]) { return false; }
        if !Continues(s[i + 2]) { return false; }
        if !Continues(s[i + 3]) { return false; }
        var cp := CodePoint4(c, s[i + 1], s[i + 2], s[i + 3]);
        if cp < 0x1_0000 { return false; }
        if cp > 0x10_FFFF { return false; }
        i := i + 4;
      } else {
        return false;
      }
      assert i == at + SeqLen(rest);
      assert rest[SeqLen(rest)..] == s[i..];
    }
    assert s[i..] == [];
    EmptyIsWellFormed();
    return true;
  }

  lemma EmptyIsWellFormed()
    ensures WellFormed([])
  {}

  // ----- Repair -----

  datatype Repair = Repair(out: seq<byte>, substituted: bool)

  /** What repairing s writes into `room` bytes, the last of which is kept for a terminator: bytes
      that start no character become `fill`, and writing stops before a character that no longer
      fits. */
  function Substitute(s: seq<byte>, room: nat, fill: byte): Repair
    decreases |s|
  {
    if s == [] then Repair([], false)
    else
      SeqLenBound(s);
      var n := SeqLen(s);
      if n == 0 then
        if 1 >= room then Repair([], false)
        else Prepend([fill], true, Substitute(s[1..], room - 1, fill))
      else
        if n >= room then Repair([], false)
        else Prepend(s[..n], false, Substitute(s[n..], room - n, fill))
  }

  function Prepend(out: seq<byte>, substituted: bool, r: Repair): Repair {
    Repair(out + r.out, substituted || r.substituted)
  }

  lemma PrependAssociates(a: seq<byte>, p: bool, b: seq<byte>, q: bool, r: Repair)
    ensures Prepend(a, p, Prepend(b, q, r)) == Prepend(a + b, p || q, r)
  {
    assert a + (b + r.out) == a + b + r.out;
  }

  /** What one turn of the loop writes: the fill, or the character that s starts with. */
  function Turned(s: seq<byte>, fill: byte): seq<byte> {
    SeqLenBound(s);
    if SeqLen(s) == 0 then [fill] else s[..SeqLen(s)]
  }

  lemma RepairGoesOn(done: seq<byte>, was: bool, s: seq<byte>, room: nat, fill: byte)
    requires s != [] && |Turned(s, fill)| < room
    ensures |Turned(s, fill)| <= |s|
    ensures Prepend(done, was, Substitute(s, room, fill))
         == Prepend(done + Turned(s, fill), was || SeqLen(s) == 0,
                    Substitute(s[|Turned(s, fill)|..], room - |Turned(s, fill)|, fill))
  {
    hide SeqLen, Prepend;
    SeqLenBound(s);
    var n := |Turned(s, fill)|;
    PrependAssociates(done, was, Turned(s, fill), SeqLen(s) == 0, Substitute(s[n..], room - n, fill));
  }

  lemma RepairEnds(done: seq<byte>, was: bool, s: seq<byte>, room: nat, fill: byte)
    requires s == [] || |Turned(s, fill)| >= room
    ensures Prepend(done, was, Substitute(s, room, fill)) == Repair(done, was)
  {
    hide SeqLen;
    SeqLenBound(s);
    assert done + [] == done;
  }

  /** The loop over a C string held in s (its terminator excluded). */
  method SubstituteInvalid(s: array<byte>, dst: array<byte>, fill: byte) returns (substituted: bool, len: nat)
    requires s != dst
    modifies dst
    ensures dst.Length == 0 ==> !substituted && len == 0
    ensures dst.Length > 0 ==>
      && len < dst.Length && dst[len] == 0
      && Repair(dst[..len], substituted) == Substitute(s[..], dst.Length, fill)
  {
    hide SeqLen, Substitute, Prepend;
    var i, n, cap := 0, s.Length, dst.Length;
    substituted, len := false, 0;
    if cap == 0 { return; }
    ghost var src := s[..];
    ghost var whole := Substitute(src, cap, fill);
    PrependNothing(whole);
    assert src[0..] == src;
    while i < n
      invariant 0 <= i <= n && len < cap && s[..] == src
      invariant whole == Prepend(dst[..len], substituted, Substitute(src[i..], cap - len, fill))
      decreases n - i
    {
      ghost var rest, done := src[i..], dst[..len];
      assert s[i..] == rest;
      SeqLenBound(rest);
      var seqLen := SeqLen(s[i..]);
      if |Turned(rest, fill)| < cap - len { RepairGoesOn(done, substituted, rest, cap - len, fill); }
      if seqLen == 0 {
        if len + 1 >= cap { break; }
        dst[len] := fill;
        len := len + 1;
        substituted := true;
        i := i + 1;
        assert rest[1..] == src[i..] && dst[..len] == done + [fill];
      } else {
        if len + seqLen >= cap { break; }
        assert rest[..seqLen] == src[i..i + seqLen] && rest[seqLen..] == src[i + seqLen..];
        CopyBytes(s, i, dst, len, seqLen);
        len := len + seqLen;
        i := i + seqLen;
        assert dst[..len] == done + rest[..seqLen];
      }
    }
    RepairEnds(dst[..len], substituted, src[i..], cap - len, fill);
    dst[len] := 0;
  }

  lemma PrependNothing(r: Repair)
    ensures r == Prepend([], false, r)
  {}

  method CopyBytes(src: array<byte>, from: nat, dst: array<byte>, to: nat, n: nat)
    requires src != dst && from + n <= src.Length && to + n <= dst.Length
    modifies dst
    ensures dst[..to + n] == old(dst[..to]) + src[from..from + n]
  {
    ghost var before := dst[..to];
    for k := 0 to n
      invariant dst[..to + k] == before + src[from..from + k]
    {
      dst[to + k] := src[from + k];
    }
  }

  // ----- What repair achieves -----

  /** A character may be put in front of well-formed text. */
  lemma WellFormedPrepend(c: seq<byte>, s: seq<byte>)
    requires IsChar(c) && WellFormed(s)
    ensures WellFormed(c + s)
  {
    hide IsChar;
    assert 1 <= |c| <= 4 by { CharLength(c); }
    assert (c + s)[..|c|] == c && (c + s)[|c|..] == s;
  }

  lemma CharLength(c: seq<byte>)
    requires IsChar(c)
    ensures 1 <= |c| <= 4
  {}

  /** With an ASCII fill byte the result is well-formed, also when it was cut short for room. */
  lemma {:induction false} RepairIsWellFormed(s: seq<byte>, room: nat, fill: byte)
    requires fill < 0x80
    ensures WellFormed(Substitute(s, room, fill).out)
    ensures room > 0 ==> |Substitute(s, room, fill).out| < room
    decreases |s|
  {
    hide SeqLen, WellFormed;
    EmptyIsWellFormed();
    if s != [] {
      SeqLenBound(s);
      var n := SeqLen(s);
      if n == 0 {
        if 1 < room {
          RepairIsWellFormed(s[1..], room - 1, fill);
          WellFormedPrepend([fill], Substitute(s[1..], room - 1, fill).out);
        }
      } else if n < room {
        RepairIsWellFormed(s[n..], room - n, fill);
        SeqLenIsExact(s, n);
        WellFormedPrepend(s[..n], Substitute(s[n..], room - n, fill).out);
      }
    }
  }

  /** Given room, repair keeps the length, reports a substitution exactly when the input was not
      well-formed, and leaves well-formed input as it is. */
  lemma {:induction false} RepairIsExact(s: seq<byte>, room: nat, fill: byte)
    requires |s| < room
    ensures var r := Substitute(s, room, fill);
            && |r.out| == |s|
            && (r.substituted <==> !WellFormed(s))
            && (WellFormed(s) ==> r.out == s)
    decreases |s|
  {
    hide SeqLen, WellFormed;
    EmptyIsWellFormed();
    if s != [] {
      SeqLenBound(s);
      WellFormedStep(s);
      var n := SeqLen(s);
      RepairIsExact(s[if n == 0 then 1 else n..], if n == 0 then room - 1 else room - n, fill);
      if n > 0 { assert s[..n] + s[n..] == s; }
    }
  }

  /** Repairing twice is repairing once. */
  lemma RepairIsIdempotent(s: seq<byte>, room: nat, fill: byte)
    requires fill < 0x80 && 0 < room
    ensures var r := Substitute(s, room, fill).out; Substitute(r, room, fill) == Repair(r, false)
  {
    RepairIsWellFormed(s, room, fill);
    RepairIsExact(Substitute(s, room, fill).out, room, fill);
  }

  /** Less room gives a prefix of what more room gives. */
  lemma {:induction false} RepairTruncates(s: seq<byte>, room: nat, more: nat, fill: byte)
    requires room <= more
    ensures Substitute(s, room, fill).out <= Substitute(s, more, fill).out
    decreases |s|
  {
    hide SeqLen;
    if s != [] {
      SeqLenBound(s);
      var n := SeqLen(s);
      var k := if n == 0 then 1 else n;
      if k < room { RepairTruncates(s[k..], room - k, more - k, fill); }
    }
  }
}
