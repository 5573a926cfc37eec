/** The Daikatana byte codec as a grammar: which streams there are, what they stand for, and what the greedy
    encoder looks for. Decoder and encoder are held against this description. */
module DkGrammar {
  import opened ByteStrings
  import opened DkCodec

  // ----- Streams -----

  /** What one opcode and its operands stand for. */
  datatype Op =
    | Spelled(run: seq<byte>)
    | Zeros(n: nat)
    | Same(b: byte, n: nat)
    | Again(back: nat, n: nat)
  {
    /** The lengths and distances that an opcode can say. */
    predicate Sayable() {
      match this
      case Spelled(run) => 1 <= |run| <= 64
      case Zeros(n) => 2 <= n <= 65
      case Same(_, n) => 2 <= n <= 65
      case Again(back, n) => 2 <= back <= 257 && 2 <= n <= 63
    }

    /** Opcodes from 0, 64, 128 and 192 on, each in the order of its lengths. */
    function Code(): (s: seq<byte>)
      requires Sayable()
      ensures s != [] && s[0] < 254
    {
      match this
      case Spelled(run) => [|run| - 1] + run
      case Zeros(n) => [64 + (n - 2)]
      case Same(b, n) => [128 + (n - 2), b]
      case Again(back, n) => [192 + (n - 2), back - 2]
    }

    /** A repetition cannot reach back before the start of the output. */
    predicate Fits(produced: nat) {
      Again? ==> back <= produced
    }

    /** The output with what the opcode adds. */
    function Then(before: seq<byte>): (after: seq<byte>)
      requires Sayable() && Fits(|before|)
      ensures before <= after && |after| == |before| + if Spelled? then |run| else n
      ensures Spelled? ==> after[|before|..] == run
      ensures Zeros? ==> forall k :: |before| <= k < |after| ==> after[k] == 0
      ensures Same? ==> forall k :: |before| <= k < |after| ==> after[k] == b
      ensures Again? ==> forall k :: |before| <= k < |after| ==> after[k] == after[k - back]
    {
      match this
      case Spelled(run) => before + run
      case Zeros(n) => before + Repeat(0, n)
      case Same(b, n) => before + Repeat(b, n)
      case Again(back, n) => CopyBack(before, back, n)
    }
  }

  /** The stream says these opcodes, which turn one output into another, and then 255 or nothing more. */
  ghost predicate Says(s: seq<byte>, ops: seq<Op>, before: seq<byte>, after: seq<byte>)
    decreases |ops|
  {
    if ops == [] then after == before && (s == [] || s[0] == 255)
    else
      var op := ops[0];
      && op.Sayable() && op.Fits(|before|) && op.Code() <= s
      && Says(s[|op.Code()|..], ops[1..], op.Then(before), after)
  }

  lemma OpDecodes(op: Op, s: seq<byte>, before: seq<byte>)
    requires op.Sayable() && op.Fits(|before|) && op.Code() <= s
    ensures Decode(s, before) == Next(op.Then(before), |op.Code()|)
  {
    var c := op.Code();
    assert s[0] == c[0];
    match op
    case Spelled(run) => assert s[1..|run| + 1] == s[..|c|][1..] == run;
    case Zeros(_) =>
    case Same(b, _) => assert s[1] == c[1] == b;
    case Again(back, _) => assert s[1] == c[1] == back - 2;
  }

  lemma DecodedOp(s: seq<byte>, before: seq<byte>) returns (op: Op)
    requires s != [] && Decode(s, before).Next?
    ensures op.Sayable() && op.Fits(|before|) && op.Code() <= s
    ensures Decode(s, before) == Next(op.Then(before), |op.Code()|)
  {
    var b: int, operand: int := s[0], if |s| > 1 then s[1] else 0;
    op := if b < 64 then Spelled(s[1..b + 2]) else if b < 128 then Zeros(b - 62)
          else if b < 192 then Same(s[1], b - 126) else Again(operand + 2, b - 190);
    assert op.Code() == s[..|op.Code()|];
    OpDecodes(op, s, before);
  }

  lemma {:induction false} SaidIsMeant(s: seq<byte>, ops: seq<Op>, before: seq<byte>, after: seq<byte>)
    requires Says(s, ops, before, after)
    ensures Meaning(s, before).Done? && Meaning(s, before).out == after
    decreases |ops|
  {
    hide Decode;
    if ops == [] {
      if s != [] { Terminates(s, before); }
    } else {
      var op := ops[0];
      OpDecodes(op, s, before);
      SaidIsMeant(s[|op.Code()|..], ops[1..], op.Then(before), after);
    }
  }

  lemma Terminates(s: seq<byte>, before: seq<byte>)
    requires s != []
    ensures Decode(s, before).Stop? <==> s[0] == 255
  {}

  lemma {:induction false} MeantIsSaid(s: seq<byte>, before: seq<byte>) returns (ops: seq<Op>)
    requires Meaning(s, before).Done?
    ensures Says(s, ops, before, Meaning(s, before).out)
    decreases |s|
  {
    hide Decode;
    ops := [];
    if s != [] {
      Terminates(s, before);
      if Decode(s, before).Next? {
        var op := DecodedOp(s, before);
        var rest := MeantIsSaid(s[|op.Code()|..], op.Then(before));
        ops := [op] + rest;
      }
    }
  }

  /** The decoder accepts exactly the streams that say opcodes which fill the buffer. */
  lemma AcceptedExactly(s: seq<byte>, n: nat)
    ensures Accepts(s, n) <==> exists ops, after :: Says(s, ops, [], after) && |after| == n
  {
    if Accepts(s, n) {
      var ops := MeantIsSaid(s, []);
      assert Says(s, ops, [], Meaning(s, []).out);
    }
    forall ops, after | Says(s, ops, [], after) && |after| == n ensures Accepts(s, n) {
      SaidIsMeant(s, ops, [], after);
    }
  }

  /** The longest runs, by their bytes. */
  lemma LongestRuns(b: byte)
    ensures Accepts([127, 255], 65) && Meaning([127, 255], []).out == Repeat(0, 65)
    ensures Accepts([191, b, 255], 65) && Meaning([191, b, 255], []).out == Repeat(b, 65)
  {
    hide Meaning;
    SaidOnce([127, 255], Zeros(65));
    SaidOnce([191, b, 255], Same(b, 65));
    assert Repeat(0, 65) == [] + Repeat(0, 65) && Repeat(b, 65) == [] + Repeat(b, 65);
  }

  lemma SaidOnce(s: seq<byte>, op: Op)
    requires op.Sayable() && op.Fits(0) && op.Code() + [255] == s
    ensures Meaning(s, []).Done? && Meaning(s, []).out == op.Then([])
  {
    var c := op.Code();
    assert s[|c|..] == [255] && c <= s && [op][1..] == [];
    assert Says([255], [], op.Then([]), op.Then([]));
    assert Says(s, [op], [], op.Then([]));
    SaidIsMeant(s, [op], [], op.Then([]));
  }

  // ----- What the encoder looks for -----

  /** A token the encoder could use at position i: a run of zeros from two on, a run of the byte there from three
      on, or three bytes and more from the window behind, not reaching into themselves. */
  predicate Offered(t: Token, s: seq<byte>, i: nat)
    requires i < |s|
  {
    match t
    case Literal(_) => false
    case ZeroRun(n) => 2 <= n <= 64 && i + n <= |s| && forall k :: i <= k < i + n ==> s[k] == 0
    case ByteRun(b, n) => 3 <= n <= 64 && i + n <= |s| && forall k :: i <= k < i + n ==> s[k] == b
    case BackRef(d, n) =>
      3 <= n <= 62 && 2 <= d <= 257 && n <= d <= i && i + n <= |s| && forall k :: i <= k < i + n ==> s[k] == s[k - d]
  }

  /** A zero run takes one byte where the others take two. */
  function Weight(t: Token): nat {
    match t
    case Literal(_) => 0
    case ZeroRun(n) => 2 * n
    case _ => t.n
  }

  /** In a tie a byte run comes first, then a repetition, the nearest one at that, and a zero run comes last. */
  predicate Preferred(t: Token, u: Token) {
    || Weight(t) > Weight(u)
    || (Weight(t) == Weight(u)
        && match t
           case ByteRun(_, _) => true
           case BackRef(d, _) => u.ZeroRun? || (u.BackRef? && d <= u.dist)
           case ZeroRun(_) => u.ZeroRun?
           case Literal(_) => false)
  }

  lemma RunIsLongest(s: seq<byte>, i: nat, b: byte, cap: nat, n: nat)
    requires i + n <= |s| && n <= cap && forall k :: i <= k < i + n ==> s[k] == b
    ensures n <= RunLength(s, i, b, cap)
  {}

  lemma MatchIsLongest(s: seq<byte>, i: nat, d: nat, n: nat)
    requires 3 <= n <= 62 && n <= d <= i && i + n <= |s| && forall k :: i <= k < i + n ==> s[k] == s[k - d]
    ensures n <= MatchAt(s, i, d)
  {}

  lemma Found(s: seq<byte>, i: nat, d: nat, n: nat)
    requires i < |s| && Offered(BackRef(d, n), s, i)
    ensures var m := FoundMatch(s, i); n <= m.n && (n == m.n ==> m.dist <= d)
  {
    hide MatchAt;
    MatchIsLongest(s, i, d, n);
    BestMatchIsLongest(s, i, Min(i, MAX_BACK_DIST), d);
  }

  lemma FoundIsOffered(s: seq<byte>, i: nat)
    requires i < |s|
    ensures var m := FoundMatch(s, i); m.n > 0 ==> Offered(BackRef(m.dist, m.n), s, i)
  {
    hide BestMatch;
  }

  lemma ChosenIsOffered(s: seq<byte>, i: nat)
    requires i < |s|
    ensures Choose(s, i).Some? ==> Offered(Choose(s, i).value, s, i)
  {
    hide RunLength, FoundMatch;
    FoundIsOffered(s, i);
  }

  /** The encoder uses a token exactly if there is one on offer, and none on offer is preferred to it. */
  lemma ChoosesTheBest(s: seq<byte>, i: nat, u: Token)
    requires i < |s|
    ensures Choose(s, i).Some? ==> Offered(Choose(s, i).value, s, i)
    ensures Offered(u, s, i) ==> Choose(s, i).Some? && Preferred(Choose(s, i).value, u)
  {
    hide FoundMatch, RunLength;
    ChosenIsOffered(s, i);
    if Offered(u, s, i) {
      match u
      case Literal(_) =>
      case ZeroRun(n) => ZerosAreBeaten(s, i, n);
      case ByteRun(b, n) => RunsAreBeaten(s, i, b, n);
      case BackRef(d, n) => Found(s, i, d, n);
    }
  }

  lemma ZerosAreBeaten(s: seq<byte>, i: nat, n: nat)
    requires i < |s| && Offered(ZeroRun(n), s, i)
    ensures Choose(s, i).Some? && Preferred(Choose(s, i).value, ZeroRun(n))
  {
    hide FoundMatch, RunLength;
    RunIsLongest(s, i, 0, 64, n);
  }

  lemma RunsAreBeaten(s: seq<byte>, i: nat, b: byte, n: nat)
    requires i < |s| && Offered(ByteRun(b, n), s, i)
    ensures Choose(s, i).Some? && Preferred(Choose(s, i).value, ByteRun(b, n))
  {
    hide FoundMatch, RunLength;
    assert s[i] == b;
    RunIsLongest(s, i, b, 64, n);
  }
}
