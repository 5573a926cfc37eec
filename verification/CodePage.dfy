/** Code page 437 as its characters, against the table of code points and the bytes that names are read into. */
module CodePage {
  import opened ByteStrings
  import opened ZipNames
  import Utf8

  /** The characters of the sixteen bytes from 16 * r on; the last one of all is a space that does not break. */
  function Characters(r: nat): (w: string)
    requires 8 <= r < 16
    ensures |w| == 16
  {
    match r
    case 8 => "ÇüéâäàåçêëèïîìÄÅ"
    case 9 => "ÉæÆôöòûùÿÖÜ¢£¥₧ƒ"
    case 10 => "áíóúñÑªº¿⌐¬½¼¡«»"
    case 11 => "░▒▓│┤╡╢╖╕╣║╗╝╜╛┐"
    case 12 => "└┴┬├─┼╞╟╚╔╩╦╠═╬╧"
    case 13 => "╨╤╥╙╘╒╓╫╪┘┌█▄▌▐▀"
    case 14 => "αßΓπΣσµτΦΘΩδ∞φε∩"
    case _ => "≡±≥≤⌠⌡÷≈°∙·√ⁿ²■\U{A0}"
  }

  predicate Spells(row: seq<u16>, w: string) {
    |row| == |w| && forall k :: 0 <= k < |row| ==> row[k] == w[k] as int
  }

  lemma Row8()
    ensures Spells(ROW_8, Characters(8))
  {}

  lemma Row9()
    ensures Spells(ROW_9, Characters(9))
  {}

  lemma RowA()
    ensures Spells(ROW_A, Characters(10))
  {}

  lemma RowB()
    ensures Spells(ROW_B, Characters(11))
  {}

  lemma RowC()
    ensures Spells(ROW_C, Characters(12))
  {}

  lemma RowD()
    ensures Spells(ROW_D, Characters(13))
  {}

  lemma RowE()
    ensures Spells(ROW_E, Characters(14))
  {}

  lemma RowF()
    ensures Spells(ROW_F, Characters(15))
  {}

  /** The table has the code points of these characters. */
  lemma TableIsCodePage(b: byte)
    requires b >= 0x80
    ensures CodePoint(b) == Characters(b / 16)[b % 16] as int
  {
    Row8();
    Row9();
    RowA();
    RowB();
    RowC();
    RowD();
    RowE();
    RowF();
    assert Spells(HighRow(b / 16), Characters(b / 16));
  }

  /** The number that a UTF-8 character of at most three bytes stands for. */
  function Number(c: seq<byte>): nat
    requires 1 <= |c| <= 3
  {
    match |c|
    case 1 => c[0]
    case 2 => (c[0] % 0x20) * 0x40 + c[1] % 0x40
    case _ => Utf8.CodePoint3(c[0], c[1], c[2])
  }

  lemma Digits(cp: nat)
    requires 0x800 <= cp < 0x1_0000
    ensures (0xE0 + cp / 0x1000) % 0x10 == cp / 0x1000
    ensures (0x80 + cp / 0x40 % 0x40) % 0x40 == cp / 0x40 % 0x40 && (0x80 + cp % 0x40) % 0x40 == cp % 0x40
    ensures cp / 0x1000 * 0x1000 + cp / 0x40 % 0x40 * 0x40 + cp % 0x40 == cp
  {
    assert cp / 0x40 / 0x40 == cp / 0x1000;
  }

  lemma EncodedNumber(cp: u16)
    requires cp < 0xD800
    ensures Number(EncodeBmp(cp)) == cp
  {
    if cp >= 0x800 { Digits(cp); }
  }

  /** A byte of a name in code page 437 becomes the UTF-8 of its character. */
  lemma DecodesCharacter(b: byte)
    ensures var c := Decode437(b);
            && Utf8.IsChar(c)
            && Number(c) == if b < 0x80 then b else Characters(b / 16)[b % 16] as int
  {
    hide CodePoint, EncodeBmp, Characters;
    Decoded437IsChar(b);
    if b >= 0x80 {
      TableIsSafe(b);
      TableIsCodePage(b);
      EncodedNumber(CodePoint(b));
    }
  }

  /** A name is read byte by byte, in order. */
  lemma {:induction false} ExpandsInOrder(a: seq<byte>, b: seq<byte>)
    ensures Expand(a + b) == Expand(a) + Expand(b)
  {
    hide Decode437;
    if a == [] {
      assert a + b == b;
    } else {
      ExpandsInOrder(a[1..], b);
      assert (a + b)[0] == a[0] && (a + b)[1..] == a[1..] + b;
      Grouped(Decode437(a[0]), Expand(a[1..]), Expand(b));
    }
  }

  lemma Grouped(a: seq<byte>, b: seq<byte>, c: seq<byte>)
    ensures a + (b + c) == a + b + c
  {}

  lemma ExpandsOne(b: byte)
    ensures Expand([b]) == Decode437(b)
  {
    hide Decode437;
    assert [b][1..] == [] && Decode437(b) + [] == Decode437(b);
  }
}
