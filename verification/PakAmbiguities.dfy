/** Quake and Daikatana files share a signature, and a directory can be one of either. */
module PakAmbiguities {
  import opened ByteStrings
  import opened Outcomes
  import opened PakFormat

  /** The byte at this place of a directory of nine Quake rows, which are eight Daikatana rows: the first
      bytes of the names differ, and no byte is zero. */
  function Mark(p: nat): (b: byte)
    requires p < 576
    ensures 1 <= b <= 0x28
  {
    if p % 64 == 0 then 1 + p / 64 else if p % 72 == 0 then 0x20 + p / 72 else 1
  }

  function From(p: nat): (s: seq<byte>)
    requires p <= 576
    ensures |s| == 576 - p && forall i :: 0 <= i < |s| ==> s[i] == Mark(p + i)
    decreases 576 - p
  {
    if p == 576 then [] else [Mark(p)] + From(p + 1)
  }

  /** The sum of two fields made of these bytes. */
  const REACH := 2 * 0x2828_2828

  function Ambiguous(): (file: seq<byte>) {
    (Pak.Signature() + U32Bytes(HEADER_SIZE) + U32Bytes(576)) + From(0) + Repeat(1, REACH)
  }

  /** The number whose n bytes are all one. */
  function Ones(n: nat): nat {
    if n == 0 then 0 else 1 + 0x100 * Ones(n - 1)
  }

  lemma {:induction false} MarkedNumber(f: seq<byte>)
    requires forall b <- f :: 1 <= b <= 0x28
    ensures Ones(|f|) <= FromLittleEndian(f) <= 0x28 * Ones(|f|)
  {
    if f != [] {
      assert f[0] in f && forall b <- f[1..] :: b in f;
      MarkedNumber(f[1..]);
    }
  }

  lemma MarkedField(s: seq<byte>, p: nat)
    requires p + 4 <= |s| && forall b <- s :: 1 <= b <= 0x28
    ensures HEADER_SIZE <= FieldAt(s, p) <= 0x2828_2828
  {
    var f := s[p..p + 4];
    assert forall b <- f :: b in s;
    MarkedNumber(f);
    assert Ones(4) == 1 + 0x100 * Ones(3) && Ones(3) == 1 + 0x100 * Ones(2) && Ones(2) == 0x101;
  }

  lemma MarkedRow(fmt: Format, s: seq<byte>, size: nat)
    requires (fmt.Pak? || fmt.Daikatana?) && |s| == fmt.RowSize() && REACH <= size
    requires forall b <- s :: 1 <= b <= 0x28
    ensures var r := ParseRow(fmt, s); r.name != [] && r.name[0] == s[0] && InRange(fmt, r, size)
  {
    hide FieldAt;
    MarkedField(s, 56);
    MarkedField(s, 60);
    if fmt.Daikatana? {
      MarkedField(s, 64);
      MarkedField(s, 68);
    }
    assert s[..56][0] == s[0] && s[0] in s;
  }

  /** Sound rows with different names, whose first bytes are at least `lead`. */
  predicate Marked(fmt: Format, rows: seq<Row>, lead: nat, size: nat) {
    DistinctNames(rows) && forall r <- rows :: InRange(fmt, r, size) && r.name != [] && lead <= r.name[0]
  }

  lemma OneMoreMarked(fmt: Format, r: Row, rest: seq<Row>, lead: nat, size: nat)
    requires InRange(fmt, r, size) && r.name != [] && r.name[0] < lead && Marked(fmt, rest, lead, size)
    ensures Marked(fmt, [r] + rest, r.name[0], size)
  {
    hide InRange;
  }

  lemma NoneMarked(fmt: Format, lead: nat, size: nat)
    ensures Marked(fmt, ParseDir(fmt, From(576)), lead, size)
  {}

  /** A row of this layout can start here. */
  predicate Starts(fmt: Format, p: nat) {
    p <= 576 && ((fmt.Pak? && p % 64 == 0) || (fmt.Daikatana? && p % 72 == 0))
  }

  lemma NextStart(fmt: Format, p: nat)
    requires Starts(fmt, p) && p < 576
    ensures Starts(fmt, p + fmt.RowSize()) && fmt.RowSize() == (if fmt.Pak? then 64 else 72)
    ensures p + fmt.RowSize() < 576 ==> Mark(p) < Mark(p + fmt.RowSize())
  {
    if fmt.Pak? {
      var k := p / 64;
      assert p == 64 * k && (p + 64) / 64 == k + 1;
    } else {
      var k := p / 72;
      assert p == 72 * k && (k == 0 || k == 1 || k == 2 || k == 3 || k == 4 || k == 5 || k == 6 || k == 7);
    }
  }

  lemma {:induction false} MarkedRows(fmt: Format, p: nat, size: nat)
    requires Starts(fmt, p) && p <= 576 && REACH <= size
    ensures Marked(fmt, ParseDir(fmt, From(p)), if p < 576 then Mark(p) else 0x100, size)
    decreases 576 - p
  {
    hide InRange, ParseRow, Mark, Marked, Starts, Format.RowSize, From;
    if p < 576 {
      var s, n := From(p), fmt.RowSize();
      NextStart(fmt, p);
      assert s[n..] == From(p + n) && s[0] == Mark(p);
      assert forall b <- s[..n] :: 1 <= b <= 0x28;
      MarkedRow(fmt, s[..n], size);
      MarkedRows(fmt, p + n, size);
      var r, rest := ParseRow(fmt, s[..n]), ParseDir(fmt, From(p + n));
      assert ParseDir(fmt, s) == [r] + rest;
      OneMoreMarked(fmt, r, rest, if p + n < 576 then Mark(p + n) else 0x100, size);
    } else {
      NoneMarked(fmt, 0x100, size);
    }
  }

  lemma {:induction false} RowCount(fmt: Format, s: seq<byte>, k: nat)
    requires (fmt.Pak? && |s| == 64 * k) || (fmt.Daikatana? && |s| == 72 * k)
    ensures |ParseDir(fmt, s)| == k
  {
    hide ParseRow;
    if k > 0 {
      RowCount(fmt, s[fmt.RowSize()..], k - 1);
    }
  }

  lemma AmbiguousHeader()
    ensures var file := Ambiguous();
            && |file| == 588 + REACH && file[..4] == Pak.Signature() && file[12..588] == From(0)
            && ParseHeader(file, Pak) == Success(Header(Pak, HEADER_SIZE, 576))
            && ParseHeader(file, Daikatana) == Success(Header(Daikatana, HEADER_SIZE, 576))
  {
    hide From, Repeat, U32Bytes, ReadU32;
    var a, b, more := U32Bytes(HEADER_SIZE), U32Bytes(576), From(0) + Repeat(1, REACH);
    var file := Ambiguous();
    U32RoundTrip(HEADER_SIZE);
    U32RoundTrip(576);
    assert file == Pak.Signature() + a + b + more;
    assert file[4..8] == a && file[8..12] == b;
  }

  lemma OpensUnder(fmt: Format)
    requires fmt.Pak? || fmt.Daikatana?
    ensures Load(Ambiguous(), As(fmt)).Success? && |Ambiguous()| >= 588 && Probe(Ambiguous(), fmt, HEADER_SIZE, 576)
    ensures |Load(Ambiguous(), As(fmt)).value.rows| == if fmt.Pak? then 9 else 8
  {
    hide Ambiguous, From, ParseHeader, ParseDir, InRange, DistinctNames, PayloadEnd;
    AmbiguousHeader();
    MarkedRows(fmt, 0, |Ambiguous()|);
    RowCount(fmt, From(0), if fmt.Pak? then 9 else 8);
  }

  /** A file that opens under either layout when told which, and is refused as ambiguous when not. If the
      probe of one layout fails because a read does, the other one is settled on. */
  lemma FailedProbeSettles()
    ensures var file := Ambiguous();
            && Load(file, As(Pak)).Success? && |Load(file, As(Pak)).value.rows| == 9
            && Load(file, As(Daikatana)).Success? && |Load(file, As(Daikatana)).value.rows| == 8
            && Load(file, Auto) == Failure(FormatError)
    ensures ByLayout(576, true, false) == Success(Pak) && ByLayout(576, false, true) == Success(Daikatana)
  {
    hide Ambiguous, ParseHeader, Probe, Load;
    AmbiguousHeader();
    OpensUnder(Pak);
    OpensUnder(Daikatana);
    FitsBoth(Ambiguous());
  }

  lemma FitsBoth(file: seq<byte>)
    requires |file| >= 588 && file[..4] == Pak.Signature()
    requires ParseHeader(file, Pak) == Success(Header(Pak, HEADER_SIZE, 576))
    requires Probe(file, Pak, HEADER_SIZE, 576) && Probe(file, Daikatana, HEADER_SIZE, 576)
    ensures Load(file, Auto) == Failure(FormatError)
  {
    hide ParseHeader, Probe, ParseDir;
  }
}
