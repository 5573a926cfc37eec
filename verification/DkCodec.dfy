/** The Daikatana byte codec: a strict decoder into a fixed-size buffer and a greedy encoder
    with a 257-byte look-back window. */
module DkCodec {
  import opened ByteStrings

  const MAX_ZERO_RUN := 64
  const MAX_BYTE_RUN := 64
  const MAX_BACK_REF := 62
  const MAX_BACK_DIST := 257
  const MAX_LITERAL := 64
  const MIN_ZERO_RUN := 2
  const MIN_BYTE_RUN := 3
  const MIN_BACK_REF := 3

  datatype Status = Ok | FormatError | LimitError

  // ----- What an opcode stream means -----

  /** Done(out, used, terminated): the stream denotes out after `used` of its bytes; it stopped
      at a terminator (which is counted) or because the input ran out. */
  datatype Outcome = Bad | Done(out: seq<byte>, used: nat, terminated: bool)

  function Later(o: Outcome, k: nat): Outcome {
    match o
    case Bad => Bad
    case Done(out, used, t) => Done(out, used + k, t)
  }

  /** out extended by n bytes, each a copy of the byte d places before it, so that a length
      above the distance repeats what was just produced. */
  function CopyBack(out: seq<byte>, d: nat, n: nat): (r: seq<byte>)
    requires 0 < d <= |out|
    ensures |r| == |out| + n && r[..|out|] == out
    ensures forall k :: |out| <= k < |r| ==> r[k] == r[k - d]
    decreases n
  {
    if n == 0 then out else CopyBack(out + [out[|out| - d]], d, n - 1)
  }

  /** Only one extension of out repeats itself at distance d. */
  lemma {:induction false} CopyBackIsUnique(out: seq<byte>, r: seq<byte>, d: nat)
    requires 0 < d <= |out| <= |r| && r[..|out|] == out
    requires forall k :: |out| <= k < |r| ==> r[k] == r[k - d]
    ensures r == CopyBack(out, d, |r| - |out|)
    decreases |r| - |out|
  {
    if |r| > |out| {
      assert r[..|out| + 1] == out + [out[|out| - d]];
      CopyBackIsUnique(r[..|out| + 1], r, d);
    }
  }

  /** One opcode: it is illegal, it ends the stream, or it leaves `out` produced after using the
      first `used` bytes of the stream. */
  datatype Step = Illegal | Stop | Next(out: seq<byte>, used: nat)

  function Decode(s: seq<byte>, out: seq<byte>): (r: Step)
    requires s != []
    ensures r.Next? ==> 0 < r.used <= |s| && out <= r.out && |r.out| <= |out| + 65 * r.used
  {
    var b: int := s[0];
    if b < 64 then
      if b + 2 > |s| then Illegal else Next(out + s[1..b + 2], b + 2)
    else if b < 128 then
      Next(out + Repeat(0, b - 62), 1)
    else if b < 192 then
      if |s| < 2 then Illegal else Next(out + Repeat(s[1], b - 126), 2)
    else if b < 254 then
      if |s| < 2 then Illegal
      else
        var d: int := s[1];
        if d + 2 > |out| then Illegal else Next(CopyBack(out, d + 2, b - 190), 2)
    else if b == 254 then Illegal
    else Stop
  }

  /** The meaning of the opcodes in s when `out` has been produced already. */
  function Meaning(s: seq<byte>, out: seq<byte>): Outcome
    decreases |s|
  {
    if s == [] then Done(out, 0, false)
    else match Decode(s, out)
      case Illegal => Bad
      case Stop => Done(out, 1, true)
      case Next(o, k) => Later(Meaning(s[k..], o), k)
  }

  /** Decoding only appends, reads no more than it is given and produces at most 65 bytes for
      each byte read. */
  lemma {:induction false} MeaningExtends(s: seq<byte>, out: seq<byte>)
    ensures var m := Meaning(s, out);
            m.Done? ==> out <= m.out && |m.out| <= |out| + 65 * m.used && m.used <= |s|
    decreases |s|
  {
    if s != [] && Decode(s, out).Next? {
      var n := Decode(s, out);
      MeaningExtends(s[n.used..], n.out);
    }
  }

  /** An opcode is understood from the bytes it uses alone. */
  lemma DecodeIsLocal(s: seq<byte>, t: seq<byte>, out: seq<byte>)
    requires s != [] && t != [] && s[0] == t[0]
    requires Decode(s, out).Next? && Decode(s, out).used <= |t|
    requires s[..Decode(s, out).used] == t[..Decode(s, out).used]
    ensures Decode(t, out) == Decode(s, out)
  {
    var n := Decode(s, out);
    var b: int := s[0];
    if b < 64 {
      assert s[1..b + 2] == s[..n.used][1..] == t[1..b + 2];
    } else if 128 <= b {
      assert s[1] == s[..n.used][1] == t[1];
    }
  }

  lemma StopIsLocal(s: seq<byte>, t: seq<byte>, out: seq<byte>)
    requires s != [] && t != [] && s[0] == t[0] && Decode(s, out).Stop?
    ensures Decode(t, out).Stop?
  {}

  /** Bytes after a terminator play no part. */
  lemma {:induction false} TrailingInputIgnored(s: seq<byte>, out: seq<byte>, junk: seq<byte>)
    requires Meaning(s, out).Done? && Meaning(s, out).terminated
    ensures var m := Meaning(s, out);
            m.used <= |s| && Meaning(s[..m.used] + junk, out) == m
    decreases |s|
  {
    hide Decode;
    MeaningExtends(s, out);
    var m := Meaning(s, out);
    var t := s[..m.used] + junk;
    var n := Decode(s, out);
    if n.Next? {
      var rest := s[n.used..];
      TrailingInputIgnored(rest, n.out, junk);
      MeaningExtends(rest, n.out);
      assert s[..n.used] == t[..n.used] && t[0] == s[0];
      DecodeIsLocal(s, t, out);
      assert t[n.used..] == rest[..m.used - n.used] + junk;
    } else {
      StopIsLocal(s, t, out);
    }
  }

  // ----- The decoder -----

  /** The stream is accepted for a buffer of n bytes. */
  predicate Accepts(s: seq<byte>, n: nat) {
    Meaning(s, []).Done? && |Meaning(s, []).out| == n
  }

  /** Decoding s has reached position `read` with `out` produced. */
  ghost predicate Reached(s: seq<byte>, read: nat, out: seq<byte>) {
    read <= |s| && Meaning(s, []) == Later(Meaning(s[read..], out), read)
  }

  lemma Advance(s: seq<byte>, read: nat, out: seq<byte>)
    requires read < |s| && Reached(s, read, out) && Decode(s[read..], out).Next?
    ensures var n := Decode(s[read..], out); Reached(s, read + n.used, n.out)
  {
    var n := Decode(s[read..], out);
    assert s[read..][n.used..] == s[read + n.used..];
  }

  /** An illegal opcode, or one that would overrun the buffer, already settles rejection. */
  lemma Rejected(s: seq<byte>, read: nat, out: seq<byte>, n: nat)
    requires read < |s| && Reached(s, read, out)
    requires var d := Decode(s[read..], out); d.Illegal? || (d.Next? && |d.out| > n)
    ensures !Accepts(s, n)
  {
    var d := Decode(s[read..], out);
    if d.Next? { MeaningExtends(s[read..][d.used..], d.out); }
  }

  datatype Progress = Fail | End | More

  /** One turn of the decoder's loop: the opcode at `at` applied to the output produced so far. */
  method DecodeOpcode(input: array<byte>, at: nat, output: array<byte>, produced: nat)
    returns (p: Progress, read: nat, now: nat)
    requires input != output && at < input.Length && produced <= output.Length
    modifies output
    ensures at < read <= input.Length && now <= output.Length
    ensures var d := Decode(input[at..], old(output[..produced]));
            match p
            case Fail => d.Illegal? || (d.Next? && |d.out| > output.Length)
            case End => d.Stop? && read == at + 1 && now == produced && output[..now] == old(output[..produced])
            case More => d == Next(output[..now], read - at)
  {
    ghost var rest, out := input[at..], output[..produced];
    var opcode: int := input[at];
    var room := output.Length - produced;
    read, now := at + 1, produced;
    if opcode < 64 {
      var copyLen := opcode + 1;
      if copyLen > input.Length - read || copyLen > room {
        return Fail, read, now;
      }
      assert rest[1..opcode + 2] == input[read..read + copyLen];
      CopyIn(input, read, output, produced, copyLen);
      return More, read + copyLen, produced + copyLen;
    } else if opcode < 128 {
      var copyLen := opcode - 62;
      if copyLen > room {
        return Fail, read, now;
      }
      Fill(output, produced, copyLen, 0);
      return More, read, produced + copyLen;
    } else if opcode < 192 {
      var copyLen := opcode - 126;
      if read >= input.Length || copyLen > room {
        return Fail, read, now;
      }
      Fill(output, produced, copyLen, input[read]);
      return More, read + 1, produced + copyLen;
    } else if opcode < 254 {
      if read >= input.Length {
        return Fail, read, now;
      }
      var copyLen := opcode - 190;
      var distance: int := input[read] as int + 2;
      if distance > produced || copyLen > room {
        return Fail, read + 1, now;
      }
      CopyBackwards(output, produced, distance, copyLen);
      return More, read + 1, produced + copyLen;
    } else if opcode == 254 {
      return Fail, read, now;
    } else {
      return End, read, now;
    }
  }

  /** Success exactly when the stream's meaning is defined and fills the buffer; the buffer then
      holds that meaning. `read` is where reading stopped. */
  method Inflate(input: array<byte>, output: array<byte>) returns (status: Status, read: nat)
    requires input != output
    modifies output
    ensures status == if Accepts(input[..], output.Length) then Ok else FormatError
    ensures status.Ok? ==> output[..] == Meaning(input[..], []).out && read == Meaning(input[..], []).used
  {
    read := 0;
    var produced := 0;
    ghost var s := input[..];
    assert s[0..] == s;
    while read < input.Length
      invariant 0 <= read <= input.Length && 0 <= produced <= output.Length && input[..] == s
      invariant Reached(s, read, output[..produced])
      decreases input.Length - read
    {
      ghost var at, out := read, output[..produced];
      assert input[at..] == s[at..];
      var p, r, now := DecodeOpcode(input, read, output, produced);
      read, produced := r, now;
      if p.Fail? {
        Rejected(s, at, out, output.Length);
        return FormatError, read;
      }
      if p.End? {
        assert Meaning(s, []) == Done(output[..produced], read, true);
        break;
      }
      Advance(s, at, out);
    }
    assert Meaning(s, []).Done? && Meaning(s, []).out == output[..produced] && Meaning(s, []).used == read;
    if produced != output.Length {
      return FormatError, read;
    }
    assert output[..produced] == output[..];
    return Ok, read;
  }

  /** memset of n bytes at position p. */
  method Fill(a: array<byte>, p: nat, n: nat, b: byte)
    requires p + n <= a.Length
    modifies a
    ensures a[..p + n] == old(a[..p]) + Repeat(b, n)
  {
    ghost var before := a[..p];
    for k := 0 to n
      invariant a[..p + k] == before + Repeat(b, k)
    {
      a[p + k] := b;
    }
  }

  /** memcpy of n bytes from position q of `input`. */
  method CopyIn(input: array<byte>, q: nat, a: array<byte>, p: nat, n: nat)
    requires a != input && q + n <= input.Length && p + n <= a.Length
    modifies a
    ensures a[..p + n] == old(a[..p]) + input[q..q + n]
  {
    ghost var before := a[..p];
    for k := 0 to n
      invariant a[..p + k] == before + input[q..q + k]
    {
      a[p + k] := input[q + k];
    }
  }

  /** Byte-by-byte copy from d places back, so that source and destination may overlap. */
  method CopyBackwards(a: array<byte>, p: nat, d: nat, n: nat)
    requires 0 < d <= p && p + n <= a.Length
    modifies a
    ensures a[..p + n] == CopyBack(old(a[..p]), d, n)
  {
    ghost var before := a[..p];
    for i := 0 to n
      invariant a[..p] == before
      invariant forall k :: p <= k < p + i ==> a[k] == a[k - d]
    {
      a[p + i] := a[p + i - d];
    }
    assert a[..p + n][..p] == before;
    CopyBackIsUnique(before, a[..p + n], d);
  }

  // ----- Tokens and their bytes -----

  datatype Token =
    | Literal(run: seq<byte>)
    | ZeroRun(n: nat)
    | ByteRun(b: byte, n: nat)
    | BackRef(dist: nat, n: nat)
  {
    predicate Legal() {
      match this
      case Literal(run) => 1 <= |run| <= MAX_LITERAL
      case ZeroRun(n) => MIN_ZERO_RUN <= n <= MAX_ZERO_RUN
      case ByteRun(_, n) => MIN_BYTE_RUN <= n <= MAX_BYTE_RUN
      case BackRef(d, n) => 2 <= d <= MAX_BACK_DIST && MIN_BACK_REF <= n <= MAX_BACK_REF
    }

    function Bytes(): seq<byte>
      requires Legal()
    {
      match this
      case Literal(run) => [|run| - 1] + run
      case ZeroRun(n) => [n + 62]
      case ByteRun(b, n) => [n + 126, b]
      case BackRef(d, n) => [n + 190, d - 2]
    }

    /** What decoding the token leaves, given what was produced before it. */
    function Expand(out: seq<byte>): seq<byte>
      requires this.BackRef? ==> 0 < dist <= |out|
    {
      match this
      case Literal(run) => out + run
      case ZeroRun(n) => out + Repeat(0, n)
      case ByteRun(b, n) => out + Repeat(b, n)
      case BackRef(d, n) => CopyBack(out, d, n)
    }

    function Cost(): nat {
      match this
      case Literal(run) => |run| + 1
      case ZeroRun(_) => 1
      case _ => 2
    }
  }

  /** Decoding undoes a legal token, whatever follows it. */
  lemma TokenDecodes(t: Token, out: seq<byte>, rest: seq<byte>)
    requires t.Legal() && (t.BackRef? ==> t.dist <= |out|)
    ensures |t.Bytes()| == t.Cost()
    ensures Decode(t.Bytes() + rest, out) == Next(t.Expand(out), t.Cost())
  {
    var s := t.Bytes() + rest;
    match t
    case Literal(run) =>
      assert s[0] == |run| - 1 && s[1..|run| + 1] == run;
    case ZeroRun(n) =>
      assert s[0] == n + 62;
    case ByteRun(b, n) =>
      assert s[0] == n + 126 && s[1] == b;
    case BackRef(d, n) =>
      assert s[0] == n + 190 && s[1] == d - 2;
  }

  // ----- The searches at one input position -----

  /** How many of the bytes from i on equal b, counting at most `cap` of them. */
  function RunLength(s: seq<byte>, i: nat, b: byte, cap: nat): (n: nat)
    requires i <= |s|
    ensures n <= cap && i + n <= |s|
    ensures forall k :: i <= k < i + n ==> s[k] == b
    ensures n == cap || i + n == |s| || s[i + n] != b
    decreases cap
  {
    if cap == 0 || i == |s| || s[i] != b then 0 else 1 + RunLength(s, i + 1, b, cap - 1)
  }

  /** How many of the bytes from i on repeat those d places earlier, counting at most `cap`. */
  function MatchLength(s: seq<byte>, i: nat, d: nat, cap: nat): (n: nat)
    requires 0 < d <= i <= |s|
    ensures n <= cap && i + n <= |s|
    ensures forall k :: i <= k < i + n ==> s[k] == s[k - d]
    ensures n == cap || i + n == |s| || s[i + n] != s[i + n - d]
    decreases cap
  {
    if cap == 0 || i == |s| || s[i] != s[i - d] then 0 else 1 + MatchLength(s, i + 1, d, cap - 1)
  }

  /** A match never overlaps its source, and is worth looking at only from three bytes on. */
  function MatchCap(s: seq<byte>, i: nat, d: nat): nat
    requires i <= |s|
  {
    var cap := Min(Min(d, MAX_BACK_REF), |s| - i);
    if cap < MIN_BACK_REF then 0 else cap
  }

  function MatchAt(s: seq<byte>, i: nat, d: nat): (n: nat)
    requires 0 < d <= i <= |s|
    ensures n <= d && n <= MAX_BACK_REF && i + n <= |s|
  {
    MatchLength(s, i, d, MatchCap(s, i, d))
  }

  datatype Match = Match(n: nat, dist: nat)

  /** The match the search keeps after trying distances 2..top; (0, 0) when there is none. */
  function BestMatch(s: seq<byte>, i: nat, top: nat): (m: Match)
    requires top <= i <= |s|
    ensures m.dist <= top && (m.n > 0 ==> 2 <= m.dist && m.n == MatchAt(s, i, m.dist))
  {
    if top < 2 then Match(0, 0)
    else
      var best := BestMatch(s, i, top - 1);
      var n := MatchAt(s, i, top);
      if n > best.n then Match(n, top) else best
  }

  /** The search keeps a longest match, at the nearest distance that reaches that length. */
  lemma {:induction false} BestMatchIsLongest(s: seq<byte>, i: nat, top: nat, d: nat)
    requires 2 <= d <= top <= i <= |s|
    ensures var m := BestMatch(s, i, top);
            MatchAt(s, i, d) <= m.n && (d < m.dist ==> MatchAt(s, i, d) < m.n)
  {
    if d < top {
      BestMatchIsLongest(s, i, top - 1, d);
    }
  }

  function FoundMatch(s: seq<byte>, i: nat): (m: Match)
    requires i <= |s|
    ensures m.n > 0 ==> MIN_BACK_REF <= m.n <= MAX_BACK_REF && 2 <= m.dist <= Min(i, MAX_BACK_DIST)
    ensures m.n > 0 ==> m.n == MatchAt(s, i, m.dist)
  {
    var m := BestMatch(s, i, Min(i, MAX_BACK_DIST));
    if m.n < MIN_BACK_REF then Match(0, 0) else m
  }

  /** A match of the greatest length at distance d ends the search. */
  lemma {:induction false} FullMatchIsFinal(s: seq<byte>, i: nat, d: nat, top: nat)
    requires d <= top <= i <= |s| && BestMatch(s, i, d).n == MAX_BACK_REF
    ensures BestMatch(s, i, top) == BestMatch(s, i, d)
  {
    hide MatchAt;
    if d < top { FullMatchIsFinal(s, i, d, top - 1); }
  }

  method CountZeroRun(input: array<byte>, i: nat) returns (len: nat)
    requires i <= input.Length
    ensures len == RunLength(input[..], i, 0, MAX_ZERO_RUN)
  {
    len := CountRun(input, i, 0, MAX_ZERO_RUN);
  }

  method CountByteRun(input: array<byte>, i: nat) returns (len: nat)
    requires i < input.Length
    ensures len == RunLength(input[..], i, input[i], MAX_BYTE_RUN)
  {
    len := CountRun(input, i, input[i], MAX_BYTE_RUN);
  }

  method CountRun(input: array<byte>, i: nat, b: byte, cap: nat) returns (len: nat)
    requires i <= input.Length
    ensures len == RunLength(input[..], i, b, cap)
  {
    var max := Min(input.Length - i, cap);
    len := 0;
    while len < max && input[i + len] == b
      invariant len <= max
      invariant RunLength(input[..], i, b, cap) == len + RunLength(input[..], i + len, b, cap - len)
    {
      len := len + 1;
    }
  }

  method MatchAtDistance(input: array<byte>, i: nat, d: nat) returns (len: nat)
    requires 0 < d <= i <= input.Length
    ensures len == MatchAt(input[..], i, d)
  {
    var cap := Min(Min(d, MAX_BACK_REF), input.Length - i);
    if cap < MIN_BACK_REF {
      return 0;
    }
    len := 0;
    while len < cap && input[i + len] == input[i + len - d]
      invariant len <= cap
      invariant MatchAt(input[..], i, d) == len + MatchLength(input[..], i + len, d, cap - len)
    {
      len := len + 1;
    }
  }

  method FindMatch(input: array<byte>, i: nat) returns (m: Match)
    requires i <= input.Length
    ensures m == FoundMatch(input[..], i)
  {
    hide MatchAt;
    ghost var s := input[..];
    var top := Min(i, MAX_BACK_DIST);
    if i < 2 || input.Length - i < MIN_BACK_REF {
      NoRoomNoMatch(s, i, top);
      return Match(0, 0);
    }
    m := Match(0, 0);
    var d := 2;
    while d <= top
      invariant 2 <= d <= top + 1
      invariant m == BestMatch(s, i, d - 1)
    {
      var len := MatchAtDistance(input, i, d);
      if len > m.n {
        m := Match(len, d);
        if len == MAX_BACK_REF {
          FullMatchIsFinal(s, i, d, top);
          break;
        }
      }
      d := d + 1;
    }
    if m.n < MIN_BACK_REF {
      m := Match(0, 0);
    }
  }

  lemma {:induction false} NoRoomNoMatch(s: seq<byte>, i: nat, top: nat)
    requires top <= i <= |s| && (i < 2 || |s| - i < MIN_BACK_REF)
    ensures BestMatch(s, i, top) == Match(0, 0)
  {
    if top >= 2 { NoRoomNoMatch(s, i, top - 1); }
  }

  // ----- The encoder -----

  /** The token chosen at position i; None means the byte joins the pending literal run. A zero
      run costs one byte where the others cost two, hence its doubled weight. */
  function Choose(s: seq<byte>, i: nat): Option<Token>
    requires i < |s|
  {
    var zlen := RunLength(s, i, 0, MAX_ZERO_RUN);
    var rlen := RunLength(s, i, s[i], MAX_BYTE_RUN);
    var m := FoundMatch(s, i);
    var z := if zlen >= MIN_ZERO_RUN then zlen else 0;
    var r := if rlen >= MIN_BYTE_RUN then rlen else 0;
    if z == 0 && r == 0 && m.n == 0 then None
    else if z * 2 > r && z * 2 > m.n then Some(ZeroRun(z))
    else if m.n > r then Some(BackRef(m.dist, m.n))
    else Some(ByteRun(s[i], r))
  }

  /** t stands for the bytes of s from i on, and costs less than they do. */
  ghost predicate Stands(t: Token, s: seq<byte>, i: nat) {
    && t.Legal() && !t.Literal? && t.Cost() < t.n && i + t.n <= |s|
    && (t.BackRef? ==> t.dist <= i)
    && t.Expand(s[..i]) == s[..i + t.n]
  }

  lemma RunStands(s: seq<byte>, i: nat, b: byte, n: nat, t: Token)
    requires i + n <= |s| && forall k :: i <= k < i + n ==> s[k] == b
    requires t.Legal() && (t == ByteRun(b, n) || (b == 0 && t == ZeroRun(n)))
    ensures Stands(t, s, i)
  {
    assert s[..i + n] == s[..i] + Repeat(b, n);
  }

  lemma BackRefStands(s: seq<byte>, i: nat, d: nat, n: nat)
    requires i + n <= |s| && d <= i && BackRef(d, n).Legal()
    requires forall k :: i <= k < i + n ==> s[k] == s[k - d]
    ensures Stands(BackRef(d, n), s, i)
  {
    CopyBackIsUnique(s[..i], s[..i + n], d);
  }

  /** A chosen token stands for the next bytes of the input and saves at least one byte over
      spelling them out. */
  lemma ChosenTokenStands(s: seq<byte>, i: nat)
    requires i < |s| && Choose(s, i).Some?
    ensures var t := Choose(s, i).value; Stands(t, s, i) && t.Legal() && !t.Literal? && 0 < t.n <= |s| - i
  {
    hide FoundMatch, RunLength;
    var t := Choose(s, i).value;
    match t
    case ZeroRun(n) => RunStands(s, i, 0, n, t);
    case ByteRun(b, n) => RunStands(s, i, b, n, t);
    case BackRef(d, n) => BackRefStands(s, i, d, n);
    case Literal(_) =>
  }

  /** A pending literal run s[from..to], spelled out. */
  function Flush(s: seq<byte>, from: nat, to: nat): seq<byte>
    requires from <= to <= |s| && to - from <= MAX_LITERAL
  {
    if from == to then [] else Literal(s[from..to]).Bytes()
  }

  /** The bytes still to be written when s[..from] has been written out, s[from..i] is the
      pending literal run and i is the next position to look at. */
  function EncodeFrom(s: seq<byte>, from: nat, i: nat): seq<byte>
    requires from <= i <= |s| && i - from < MAX_LITERAL
    decreases |s| - i
  {
    if i == |s| then Flush(s, from, i) + [0xFF]
    else match Choose(s, i)
      case None =>
        if i + 1 - from == MAX_LITERAL then Flush(s, from, i + 1) + EncodeFrom(s, i + 1, i + 1)
        else EncodeFrom(s, from, i + 1)
      case Some(t) =>
        ChosenTokenStands(s, i);
        Flush(s, from, i) + t.Bytes() + EncodeFrom(s, i + t.n, i + t.n)
  }

  function Encode(s: seq<byte>): seq<byte> {
    EncodeFrom(s, 0, 0)
  }

  /** Decoding a flushed literal run and then the rest. */
  lemma FlushDecodes(s: seq<byte>, from: nat, to: nat, rest: seq<byte>)
    requires from <= to <= |s| && to - from <= MAX_LITERAL
    ensures Meaning(Flush(s, from, to) + rest, s[..from])
         == Later(Meaning(rest, s[..to]), |Flush(s, from, to)|)
  {
    var f := Flush(s, from, to);
    if from == to {
      assert f + rest == rest;
      assert Later(Meaning(rest, s[..to]), 0) == Meaning(rest, s[..to]);
    } else {
      TokenDecodes(Literal(s[from..to]), s[..from], rest);
      assert (f + rest)[|f|..] == rest;
      assert s[..from] + s[from..to] == s[..to];
    }
  }

  /** Decoding a flushed literal run, the token after it, and then the rest. */
  lemma FlushAndTokenDecode(s: seq<byte>, from: nat, i: nat, t: Token, rest: seq<byte>)
    requires from <= i <= |s| && i - from <= MAX_LITERAL && Stands(t, s, i)
    ensures Meaning(Flush(s, from, i) + t.Bytes() + rest, s[..from])
         == Later(Meaning(rest, s[..i + t.n]), |Flush(s, from, i) + t.Bytes()|)
  {
    hide Flush, Decode, Token.Bytes;
    TokenDecodes(t, s[..i], rest);
    assert (t.Bytes() + rest)[t.Cost()..] == rest;
    FlushDecodes(s, from, i, t.Bytes() + rest);
    assert Flush(s, from, i) + t.Bytes() + rest == Flush(s, from, i) + (t.Bytes() + rest);
  }

  lemma EndDecodes(s: seq<byte>, from: nat)
    requires from <= |s| <= from + MAX_LITERAL
    ensures var e := Flush(s, from, |s|) + [0xFF]; Meaning(e, s[..from]) == Done(s, |e|, true)
  {
    FlushDecodes(s, from, |s|, [0xFF]);
    assert s[..|s|] == s;
  }

  lemma {:induction false} EncodeFromDecodes(s: seq<byte>, from: nat, i: nat)
    requires from <= i <= |s| && i - from < MAX_LITERAL
    ensures var e := EncodeFrom(s, from, i); Meaning(e, s[..from]) == Done(s, |e|, true)
    decreases |s| - i
  {
    hide Choose, Stands, Meaning, Flush;
    if i == |s| {
      EndDecodes(s, from);
    } else {
      match Choose(s, i)
      case None =>
        if i + 1 - from == MAX_LITERAL {
          EncodeFromDecodes(s, i + 1, i + 1);
          FlushDecodes(s, from, i + 1, EncodeFrom(s, i + 1, i + 1));
        } else {
          EncodeFromDecodes(s, from, i + 1);
        }
      case Some(t) =>
        ChosenTokenStands(s, i);
        EncodeFromDecodes(s, i + t.n, i + t.n);
        FlushAndTokenDecode(s, from, i, t, EncodeFrom(s, i + t.n, i + t.n));
    }
  }

  /** Decoding what the encoder writes gives the input back and stops at the terminator, which is
      the very last byte written. */
  lemma RoundTrip(s: seq<byte>)
    ensures Accepts(Encode(s), |s|)
    ensures Meaning(Encode(s), []) == Done(s, |Encode(s)|, true)
  {
    EncodeFromDecodes(s, 0, 0);
    assert s[..0] == [];
  }

  /** Literal-only cost: every byte, one length byte per 64 of them, and the terminator. */
  function WorstCase(n: nat): nat {
    n + (n + 63) / 64 + 1
  }

  /** No token choice is worse than literals: a token that cuts a literal run short saves at least
      the length byte that the cut costs. */
  lemma {:induction false} EncodeFromBound(s: seq<byte>, from: nat, i: nat)
    requires from <= i <= |s| && i - from < MAX_LITERAL
    ensures |EncodeFrom(s, from, i)| <= WorstCase(|s| - from)
    decreases |s| - i
  {
    hide Choose, Token.Bytes, Token.Expand;
    if i == |s| {
      FlushLength(s, from, i);
    } else if Choose(s, i).None? {
      if i + 1 - from == MAX_LITERAL {
        EncodeFromBound(s, i + 1, i + 1);
        FlushLength(s, from, i + 1);
        assert |EncodeFrom(s, from, i)| == 65 + |EncodeFrom(s, i + 1, i + 1)|;
      } else {
        EncodeFromBound(s, from, i + 1);
      }
    } else {
      var t := Choose(s, i).value;
      ChosenTokenStands(s, i);
      TokenDecodes(t, s[..i], []);
      FlushLength(s, from, i);
      EncodeFromBound(s, i + t.n, i + t.n);
      assert |EncodeFrom(s, from, i)| == |Flush(s, from, i)| + t.Cost() + |EncodeFrom(s, i + t.n, i + t.n)|;
    }
  }

  /** The pre-flight check of the encoder is enough for every input. */
  lemma EncodeBound(s: seq<byte>)
    ensures 1 <= |Encode(s)| <= |s| + (|s| + 63) / 64 + 1
  {
    EncodeFromBound(s, 0, 0);
    EncodeFromDecodes(s, 0, 0);
  }

  /** One turn of the encoder's loop at position i, with s[from..i] pending and `op` bytes written. */
  method EncodeStep(input: array<byte>, from: nat, i: nat, output: array<byte>, op: nat)
    returns (pending: nat, next: nat, n: nat)
    requires input != output && from <= i < input.Length && i - from < MAX_LITERAL
    requires op + |EncodeFrom(input[..], from, i)| <= output.Length
    modifies output
    ensures pending <= next <= input.Length && next - pending < MAX_LITERAL && i < next
    ensures n <= output.Length
    ensures old(output[..op]) + EncodeFrom(input[..], from, i)
         == output[..n] + EncodeFrom(input[..], pending, next)
  {
    hide Choose, Stands, Token.Bytes;
    ghost var s, written := input[..], output[..op];
    pending, n := from, op;
    var choice := ChooseToken(input, i);
    if choice.None? {
      next := i + 1;
      if next - from == MAX_LITERAL {
        FlushLength(s, from, next);
        n := WriteLiteral(input, from, next - from, output, op);
        pending := next;
        assert output[..n] + EncodeFrom(s, next, next) == written + (Flush(s, from, next) + EncodeFrom(s, next, next));
      }
    } else {
      var t := choice.value;
      ChosenTokenStands(s, i);
      next := i + t.n;
      pending := next;
      ghost var rest := EncodeFrom(s, next, next);
      assert EncodeFrom(s, from, i) == Flush(s, from, i) + t.Bytes() + rest;
      n := FlushAndToken(input, from, i, t, output, op);
      assert output[..n] + rest == written + (Flush(s, from, i) + t.Bytes() + rest);
    }
  }

  method FlushAndToken(input: array<byte>, from: nat, i: nat, t: Token, output: array<byte>, op: nat) returns (n: nat)
    requires input != output && from <= i <= input.Length && i - from < MAX_LITERAL
    requires t.Legal() && !t.Literal?
    requires op + |Flush(input[..], from, i) + t.Bytes()| <= output.Length
    modifies output
    ensures n <= output.Length && output[..n] == old(output[..op]) + (Flush(input[..], from, i) + t.Bytes())
  {
    FlushLength(input[..], from, i);
    n := op;
    if from < i {
      n := WriteLiteral(input, from, i - from, output, n);
    }
    assert output[..n] == old(output[..op]) + Flush(input[..], from, i);
    n := WriteToken(t, output, n);
  }

  lemma FlushLength(s: seq<byte>, from: nat, to: nat)
    requires from <= to <= |s| && to - from <= MAX_LITERAL
    ensures |Flush(s, from, to)| == if from == to then 0 else to - from + 1
  {
  }

  /** Refuses a buffer that the worst case could overrun; otherwise writes the encoding. */
  method Deflate(input: array<byte>, output: array<byte>) returns (status: Status, n: nat)
    requires input != output
    modifies output
    ensures status == if input.Length + (input.Length + 63) / 64 + 1 > output.Length then LimitError else Ok
    ensures status.Ok? ==> n <= output.Length && output[..n] == Encode(input[..])
    ensures status.LimitError? ==> output[..] == old(output[..])
  {
    hide Choose, EncodeFrom;
    ghost var s := input[..];
    if WorstCase(input.Length) > output.Length {
      return LimitError, 0;
    }
    EncodeBound(s);
    var i, literalStart := 0, 0;
    n := 0;
    while i < input.Length
      invariant 0 <= literalStart <= i <= input.Length && i - literalStart < MAX_LITERAL
      invariant input[..] == s && n <= output.Length
      invariant output[..n] + EncodeFrom(s, literalStart, i) == Encode(s)
      decreases input.Length - i
    {
      assert |output[..n] + EncodeFrom(s, literalStart, i)| <= output.Length;
      literalStart, i, n := EncodeStep(input, literalStart, i, output, n);
    }
    n := FinishEncoding(input, literalStart, output, n);
    return Ok, n;
  }

  method FinishEncoding(input: array<byte>, from: nat, output: array<byte>, op: nat) returns (n: nat)
    requires input != output && from <= input.Length < from + MAX_LITERAL
    requires op + |EncodeFrom(input[..], from, input.Length)| <= output.Length
    modifies output
    ensures n <= output.Length
    ensures output[..n] == old(output[..op]) + EncodeFrom(input[..], from, input.Length)
  {
    n := op;
    if from < input.Length {
      n := WriteLiteral(input, from, input.Length - from, output, op);
    }
    output[n] := 0xFF;
    n := n + 1;
  }

  method ChooseToken(input: array<byte>, i: nat) returns (c: Option<Token>)
    requires i < input.Length
    ensures c == Choose(input[..], i)
  {
    hide FoundMatch, RunLength;
    var zlen := CountZeroRun(input, i);
    var rlen := CountByteRun(input, i);
    var m := FindMatch(input, i);
    var z := if zlen >= MIN_ZERO_RUN then zlen else 0;
    var r := if rlen >= MIN_BYTE_RUN then rlen else 0;
    if z == 0 && r == 0 && m.n == 0 {
      c := None;
    } else if z * 2 > r && z * 2 > m.n {
      c := Some(ZeroRun(z));
    } else if m.n > r {
      c := Some(BackRef(m.dist, m.n));
    } else {
      c := Some(ByteRun(input[i], r));
    }
  }

  method WriteLiteral(input: array<byte>, from: nat, len: nat, output: array<byte>, op: nat) returns (n: nat)
    requires input != output && 1 <= len <= MAX_LITERAL && from + len <= input.Length
    requires op + 1 + len <= output.Length
    modifies output
    ensures n == op + 1 + len
    ensures output[..n] == old(output[..op]) + Flush(input[..], from, from + len)
  {
    output[op] := len - 1;
    ghost var run := input[..][from..from + len];
    assert input[from..from + len] == run;
    assert output[..op + 1] == old(output[..op]) + [|run| - 1];
    CopyIn(input, from, output, op + 1, len);
    n := op + 1 + len;
    assert output[..n] == old(output[..op]) + [|run| - 1] + run == old(output[..op]) + ([|run| - 1] + run);
  }

  method WriteToken(t: Token, output: array<byte>, op: nat) returns (n: nat)
    requires t.Legal() && !t.Literal? && op + t.Cost() <= output.Length
    modifies output
    ensures n == op + t.Cost() && output[..n] == old(output[..op]) + t.Bytes()
  {
    match t
    case ZeroRun(k) =>
      output[op] := k + 62;
      n := op + 1;
    case ByteRun(b, k) =>
      output[op], output[op + 1] := k + 126, b;
      n := op + 2;
    case BackRef(d, k) =>
      output[op], output[op + 1] := k + 190, d - 2;
      n := op + 2;
  }
}
