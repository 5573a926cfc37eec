/** CRC-32 as archives use it: the table-driven loop, against division one bit at a time. */
module Crc32 {
  import opened ByteStrings

  /** The IEEE 802.3 polynomial, reflected. */
  const POLY: bv32 := 0xEDB8_8320

  // ----- One bit at a time -----

  function Xor(a: bv32, b: bv32): bv32 {
    a ^ b
  }

  function LowBit(c: bv32): bv32 {
    c & 1
  }

  function Half(c: bv32): bv32 {
    c >> 1
  }

  function Shift(c: bv32): bv32 {
    if c & 1 == 1 then POLY ^ (c >> 1) else c >> 1
  }

  function Nibble(n: int): bv4
    requires 0 <= n < 16
  {
    n as bv4
  }

  function Pack(high: bv4, low: bv4): bv32 {
    ((high as bv32) << 4) | (low as bv32)
  }

  /** The byte b as a machine word. */
  function Word(b: byte): bv32 {
    Pack(Nibble(b / 16), Nibble(b % 16))
  }

  /** The lowest n bits of b enter the remainder c, lowest first. */
  function FeedBits(c: bv32, b: bv32, n: nat): bv32
    decreases n
  {
    if n == 0 then c else FeedBits(Shift(Xor(c, LowBit(b))), Half(b), n - 1)
  }

  function Divide(c: bv32, message: seq<byte>): bv32
    decreases |message|
  {
    if message == [] then c else Divide(FeedBits(c, Word(message[0]), 8), message[1..])
  }

  const ONES: bv32 := 0xFFFF_FFFF

  /** The checksum of a message that continues one with checksum crc. */
  function Crc(crc: bv32, message: seq<byte>): bv32 {
    Xor(Divide(Xor(crc, ONES), message), ONES)
  }

  // ----- The table -----

  const ROW_0: seq<bv32> := [
    0x00000000, 0x77073096, 0xEE0E612C, 0x990951BA, 0x076DC419, 0x706AF48F, 0xE963A535, 0x9E6495A3,
    0x0EDB8832, 0x79DCB8A4, 0xE0D5E91E, 0x97D2D988, 0x09B64C2B, 0x7EB17CBD, 0xE7B82D07, 0x90BF1D91]
  const ROW_1: seq<bv32> := [
    0x1DB71064, 0x6AB020F2, 0xF3B97148, 0x84BE41DE, 0x1ADAD47D, 0x6DDDE4EB, 0xF4D4B551, 0x83D385C7,
    0x136C9856, 0x646BA8C0, 0xFD62F97A, 0x8A65C9EC, 0x14015C4F, 0x63066CD9, 0xFA0F3D63, 0x8D080DF5]
  const ROW_2: seq<bv32> := [
    0x3B6E20C8, 0x4C69105E, 0xD56041E4, 0xA2677172, 0x3C03E4D1, 0x4B04D447, 0xD20D85FD, 0xA50AB56B,
    0x35B5A8FA, 0x42B2986C, 0xDBBBC9D6, 0xACBCF940, 0x32D86CE3, 0x45DF5C75, 0xDCD60DCF, 0xABD13D59]
  const ROW_3: seq<bv32> := [
    0x26D930AC, 0x51DE003A, 0xC8D75180, 0xBFD06116, 0x21B4F4B5, 0x56B3C423, 0xCFBA9599, 0xB8BDA50F,
    0x2802B89E, 0x5F058808, 0xC60CD9B2, 0xB10BE924, 0x2F6F7C87, 0x58684C11, 0xC1611DAB, 0xB6662D3D]
  const ROW_4: seq<bv32> := [
    0x76DC4190, 0x01DB7106, 0x98D220BC, 0xEFD5102A, 0x71B18589, 0x06B6B51F, 0x9FBFE4A5, 0xE8B8D433,
    0x7807C9A2, 0x0F00F934, 0x9609A88E, 0xE10E9818, 0x7F6A0DBB, 0x086D3D2D, 0x91646C97, 0xE6635C01]
  const ROW_5: seq<bv32> := [
    0x6B6B51F4, 0x1C6C6162, 0x856530D8, 0xF262004E, 0x6C0695ED, 0x1B01A57B, 0x8208F4C1, 0xF50FC457,
    0x65B0D9C6, 0x12B7E950, 0x8BBEB8EA, 0xFCB9887C, 0x62DD1DDF, 0x15DA2D49, 0x8CD37CF3, 0xFBD44C65]
  const ROW_6: seq<bv32> := [
    0x4DB26158, 0x3AB551CE, 0xA3BC0074, 0xD4BB30E2, 0x4ADFA541, 0x3DD895D7, 0xA4D1C46D, 0xD3D6F4FB,
    0x4369E96A, 0x346ED9FC, 0xAD678846, 0xDA60B8D0, 0x44042D73, 0x33031DE5, 0xAA0A4C5F, 0xDD0D7CC9]
  const ROW_7: seq<bv32> := [
    0x5005713C, 0x270241AA, 0xBE0B1010, 0xC90C2086, 0x5768B525, 0x206F85B3, 0xB966D409, 0xCE61E49F,
    0x5EDEF90E, 0x29D9C998, 0xB0D09822, 0xC7D7A8B4, 0x59B33D17, 0x2EB40D81, 0xB7BD5C3B, 0xC0BA6CAD]
  const ROW_8: seq<bv32> := [
    0xEDB88320, 0x9ABFB3B6, 0x03B6E20C, 0x74B1D29A, 0xEAD54739, 0x9DD277AF, 0x04DB2615, 0x73DC1683,
    0xE3630B12, 0x94643B84, 0x0D6D6A3E, 0x7A6A5AA8, 0xE40ECF0B, 0x9309FF9D, 0x0A00AE27, 0x7D079EB1]
  const ROW_9: seq<bv32> := [
    0xF00F9344, 0x8708A3D2, 0x1E01F268, 0x6906C2FE, 0xF762575D, 0x806567CB, 0x196C3671, 0x6E6B06E7,
    0xFED41B76, 0x89D32BE0, 0x10DA7A5A, 0x67DD4ACC, 0xF9B9DF6F, 0x8EBEEFF9, 0x17B7BE43, 0x60B08ED5]
  const ROW_A: seq<bv32> := [
    0xD6D6A3E8, 0xA1D1937E, 0x38D8C2C4, 0x4FDFF252, 0xD1BB67F1, 0xA6BC5767, 0x3FB506DD, 0x48B2364B,
    0xD80D2BDA, 0xAF0A1B4C, 0x36034AF6, 0x41047A60, 0xDF60EFC3, 0xA867DF55, 0x316E8EEF, 0x4669BE79]
  const ROW_B: seq<bv32> := [
    0xCB61B38C, 0xBC66831A, 0x256FD2A0, 0x5268E236, 0xCC0C7795, 0xBB0B4703, 0x220216B9, 0x5505262F,
    0xC5BA3BBE, 0xB2BD0B28, 0x2BB45A92, 0x5CB36A04, 0xC2D7FFA7, 0xB5D0CF31, 0x2CD99E8B, 0x5BDEAE1D]
  const ROW_C: seq<bv32> := [
    0x9B64C2B0, 0xEC63F226, 0x756AA39C, 0x026D930A, 0x9C0906A9, 0xEB0E363F, 0x72076785, 0x05005713,
    0x95BF4A82, 0xE2B87A14, 0x7BB12BAE, 0x0CB61B38, 0x92D28E9B, 0xE5D5BE0D, 0x7CDCEFB7, 0x0BDBDF21]
  const ROW_D: seq<bv32> := [
    0x86D3D2D4, 0xF1D4E242, 0x68DDB3F8, 0x1FDA836E, 0x81BE16CD, 0xF6B9265B, 0x6FB077E1, 0x18B74777,
    0x88085AE6, 0xFF0F6A70, 0x66063BCA, 0x11010B5C, 0x8F659EFF, 0xF862AE69, 0x616BFFD3, 0x166CCF45]
  const ROW_E: seq<bv32> := [
    0xA00AE278, 0xD70DD2EE, 0x4E048354, 0x3903B3C2, 0xA7672661, 0xD06016F7, 0x4969474D, 0x3E6E77DB,
    0xAED16A4A, 0xD9D65ADC, 0x40DF0B66, 0x37D83BF0, 0xA9BCAE53, 0xDEBB9EC5, 0x47B2CF7F, 0x30B5FFE9]
  const ROW_F: seq<bv32> := [
    0xBDBDF21C, 0xCABAC28A, 0x53B39330, 0x24B4A3A6, 0xBAD03605, 0xCDD70693, 0x54DE5729, 0x23D967BF,
    0xB3667A2E, 0xC4614AB8, 0x5D681B02, 0x2A6F2B94, 0xB40BBE37, 0xC30C8EA1, 0x5A05DF1B, 0x2D02EF8D]

  const ROWS: seq<seq<bv32>> := [ROW_0, ROW_1, ROW_2, ROW_3, ROW_4, ROW_5, ROW_6, ROW_7,
                                 ROW_8, ROW_9, ROW_A, ROW_B, ROW_C, ROW_D, ROW_E, ROW_F]

  /** The 256-entry table, held as sixteen rows of sixteen. */
  function Table(i: bv32): bv32
    requires i < 256
  {
    ROWS[(i >> 4) as int][(i & 0xF) as int]
  }

  function Shift8(c: bv32): bv32 {
    Shift(Shift(Shift(Shift(Shift(Shift(Shift(Shift(c))))))))
  }

  function SpecRow(c: bv32): seq<bv32> {
    [Shift8(c), Shift8(c | 1), Shift8(c | 2), Shift8(c | 3), Shift8(c | 4), Shift8(c | 5), Shift8(c | 6), Shift8(c | 7),
     Shift8(c | 8), Shift8(c | 9), Shift8(c | 10), Shift8(c | 11), Shift8(c | 12), Shift8(c | 13), Shift8(c | 14),
       Shift8(c | 15)]
  }

  lemma RowRight0() ensures ROW_0 == SpecRow(0x00) {}
  lemma RowRight1() ensures ROW_1 == SpecRow(0x10) {}
  lemma RowRight2() ensures ROW_2 == SpecRow(0x20) {}
  lemma RowRight3() ensures ROW_3 == SpecRow(0x30) {}
  lemma RowRight4() ensures ROW_4 == SpecRow(0x40) {}
  lemma RowRight5() ensures ROW_5 == SpecRow(0x50) {}
  lemma RowRight6() ensures ROW_6 == SpecRow(0x60) {}
  lemma RowRight7() ensures ROW_7 == SpecRow(0x70) {}
  lemma RowRight8() ensures ROW_8 == SpecRow(0x80) {}
  lemma RowRight9() ensures ROW_9 == SpecRow(0x90) {}
  lemma RowRightA() ensures ROW_A == SpecRow(0xA0) {}
  lemma RowRightB() ensures ROW_B == SpecRow(0xB0) {}
  lemma RowRightC() ensures ROW_C == SpecRow(0xC0) {}
  lemma RowRightD() ensures ROW_D == SpecRow(0xD0) {}
  lemma RowRightE() ensures ROW_E == SpecRow(0xE0) {}
  lemma RowRightF() ensures ROW_F == SpecRow(0xF0) {}

  /** Splitting on the low four bits. */
  lemma RowEntry(row: seq<bv32>, c: bv32, x: bv32)
    requires row == SpecRow(c) && x < 256 && x & 0xF0 == c
    ensures row[(x & 0xF) as int] == Shift8(x)
  {
    hide Shift8;
    assert x == c | (x & 0xF);
    NibbleCases(x & 0xF);
  }

  lemma NibbleCases(l: bv32)
    requires l < 16
    ensures l == 0 || l == 1 || l == 2 || l == 3 || l == 4 || l == 5 || l == 6 || l == 7
         || l == 8 || l == 9 || l == 10 || l == 11 || l == 12 || l == 13 || l == 14 || l == 15
  {
  }

  lemma HighNibble(i: bv32)
    requires i < 256
    ensures i >> 4 < 16 && i & 0xF0 == (i >> 4) << 4
  {
  }

  lemma RowsRight(h: bv32)
    requires h < 16
    ensures ROWS[h as int] == SpecRow(h << 4)
  {
    hide Shift8, SpecRow;
    NibbleCases(h);
    RowRight0();
    RowRight1();
    RowRight2();
    RowRight3();
    RowRight4();
    RowRight5();
    RowRight6();
    RowRight7();
    RowRight8();
    RowRight9();
    RowRightA();
    RowRightB();
    RowRightC();
    RowRightD();
    RowRightE();
    RowRightF();
  }

  /** Every table entry is its index shifted out of the remainder bit by bit. */
  lemma TableIsRight(i: bv32)
    requires i < 256
    ensures Table(i) == Shift8(i)
  {
    hide Shift8, SpecRow;
    HighNibble(i);
    RowsRight(i >> 4);
    RowEntry(ROWS[(i >> 4) as int], i & 0xF0, i);
  }

  // ----- Shifting is linear over exclusive-or -----

  lemma XorFacts(x: bv32, y: bv32)
    ensures Half(Xor(x, y)) == Xor(Half(x), Half(y))
    ensures LowBit(Xor(x, y)) == if LowBit(x) == LowBit(y) then 0 else 1
    ensures LowBit(x) == 0 || LowBit(x) == 1
    ensures LowBit(y) == 0 || LowBit(y) == 1
    ensures Xor(Xor(x, y), y) == x && Xor(x, 0) == x && Xor(x, y) == Xor(y, x)
  {
  }

  lemma XorAssociates(a: bv32, b: bv32, c: bv32)
    ensures Xor(Xor(a, b), c) == Xor(a, Xor(b, c))
  {}

  lemma XorCommutes(a: bv32, b: bv32)
    ensures Xor(a, b) == Xor(b, a)
  {}

  lemma XorUndoes(p: bv32, x: bv32)
    ensures Xor(p, Xor(p, x)) == x
  {}

  lemma XorCancels(p: bv32, a: bv32, b: bv32)
    ensures Xor(Xor(p, a), Xor(p, b)) == Xor(a, b)
    ensures Xor(Xor(p, a), b) == Xor(p, Xor(a, b))
    ensures Xor(a, Xor(p, b)) == Xor(p, Xor(a, b))
  {
    hide Xor;
    XorAssociates(p, a, b);
    XorCommutes(a, p);
    XorAssociates(a, p, b);
    XorAssociates(p, a, Xor(p, b));
    XorUndoes(p, Xor(a, b));
  }

  lemma ShiftForm(c: bv32)
    ensures Shift(c) == if LowBit(c) == 1 then Xor(POLY, Half(c)) else Half(c)
  {}

  lemma ShiftLinear(x: bv32, y: bv32)
    ensures Shift(Xor(x, y)) == Xor(Shift(x), Shift(y))
  {
    hide Shift, Xor, Half, LowBit;
    XorFacts(x, y);
    ShiftForm(x);
    ShiftForm(y);
    ShiftForm(Xor(x, y));
    var p, a, b := POLY, Half(x), Half(y);
    XorCancels(p, a, b);
    if LowBit(x) == 1 {
      assert Shift(x) == Xor(p, a);
      if LowBit(y) == 1 {
        assert Shift(y) == Xor(p, b);
      } else {
        assert Shift(y) == b;
      }
    } else {
      assert Shift(x) == a;
      if LowBit(y) == 1 {
        assert Shift(y) == Xor(p, b);
      } else {
        assert Shift(y) == b;
      }
    }
  }

  lemma Shift8Linear(x: bv32, y: bv32)
    ensures Shift8(Xor(x, y)) == Xor(Shift8(x), Shift8(y))
  {
    hide Shift, Xor;
    var a, b := x, y;
    ShiftLinear(a, b); a, b := Shift(a), Shift(b);
    ShiftLinear(a, b); a, b := Shift(a), Shift(b);
    ShiftLinear(a, b); a, b := Shift(a), Shift(b);
    ShiftLinear(a, b); a, b := Shift(a), Shift(b);
    ShiftLinear(a, b); a, b := Shift(a), Shift(b);
    ShiftLinear(a, b); a, b := Shift(a), Shift(b);
    ShiftLinear(a, b); a, b := Shift(a), Shift(b);
    ShiftLinear(a, b);
  }

  function LowByte(x: bv32): bv32 {
    x & 0xFF
  }

  function HighBytes(x: bv32): bv32 {
    x & 0xFFFF_FF00
  }

  lemma ShiftOutZeros(x: bv32)
    ensures Shift8(HighBytes(x)) == x >> 8
  {
  }

  lemma SplitLowByte(x: bv32)
    ensures x == Xor(LowByte(x), HighBytes(x)) && LowByte(x) < 256
  {}

  /** One step of the table-driven loop is eight single-bit steps. */
  lemma TableStep(x: bv32)
    ensures LowByte(x) < 256 && Xor(Table(LowByte(x)), x >> 8) == Shift8(x)
  {
    hide Shift8, Table, Xor, LowByte, HighBytes;
    SplitLowByte(x);
    Shift8Linear(LowByte(x), HighBytes(x));
    ShiftOutZeros(x);
    TableIsRight(LowByte(x));
  }

  /** b has no bits beyond the lowest n. */
  predicate Fits(b: bv32, n: nat)
    decreases n
  {
    if n == 0 then b == 0 else Fits(Half(b), n - 1)
  }

  function Shifts(c: bv32, n: nat): bv32
    decreases n
  {
    if n == 0 then c else Shifts(Shift(c), n - 1)
  }

  lemma SplitLowBit(c: bv32, b: bv32)
    ensures Shift(Xor(c, b)) == Xor(Shift(Xor(c, LowBit(b))), Half(b))
  {
    var even := b & 0xFFFF_FFFE;
    SplitXor(c, b);
    ShiftLinear(Xor(c, LowBit(b)), even);
    assert Shift(even) == Half(b);
  }

  lemma SplitXor(c: bv32, b: bv32)
    ensures Xor(c, b) == Xor(Xor(c, LowBit(b)), b & 0xFFFF_FFFE)
  {}

  /** Bits may all enter at once before shifting. */
  lemma {:induction false} FeedAtOnce(c: bv32, b: bv32, n: nat)
    requires Fits(b, n)
    ensures FeedBits(c, b, n) == Shifts(Xor(c, b), n)
    decreases n
  {
    hide Shift, Xor, Half, LowBit;
    if n > 0 {
      SplitLowBit(c, b);
      FeedAtOnce(Shift(Xor(c, LowBit(b))), Half(b), n - 1);
    } else {
      XorFacts(c, b);
    }
  }

  lemma FitsMask(x: bv32)
    ensures Fits(LowByte(x), 8)
  {}

  lemma LowByteOfByte(b: byte)
    ensures LowByte(Word(b)) == Word(b)
  {}

  lemma ByteStep(c: bv32, b: byte)
    ensures FeedBits(c, Word(b), 8) == Shift8(Xor(c, Word(b)))
  {
    hide Shift, Xor, Half, LowBit, LowByte, FeedBits;
    var x := Word(b);
    LowByteOfByte(b);
    FitsMask(x);
    FeedAtOnce(c, x, 8);
  }

  // ----- The loop -----

  method Update(crc: bv32, buf: array<byte>) returns (r: bv32)
    ensures r == Crc(crc, buf[..])
  {
    hide Shift8, Table, FeedBits, Xor, LowByte;
    var c := Xor(crc, ONES);
    ghost var start := c;
    assert buf[0..] == buf[..];
    for i := 0 to buf.Length
      invariant Divide(c, buf[i..]) == Divide(start, buf[..])
    {
      var x := Xor(c, Word(buf[i]));
      TableStep(x);
      ByteStep(c, buf[i]);
      assert buf[i..][1..] == buf[i + 1..];
      c := Xor(Table(LowByte(x)), x >> 8);
    }
    r := Xor(c, ONES);
  }

  // ----- What callers rely on -----

  lemma {:induction false} DivideAppend(c: bv32, a: seq<byte>, b: seq<byte>)
    ensures Divide(c, a + b) == Divide(Divide(c, a), b)
    decreases |a|
  {
    hide FeedBits;
    if a == [] {
      assert a + b == b;
    } else {
      assert (a + b)[1..] == a[1..] + b;
      DivideAppend(FeedBits(c, Word(a[0]), 8), a[1..], b);
    }
  }

  /** Chaining over a split is one pass over the whole. */
  lemma CrcChains(crc: bv32, a: seq<byte>, b: seq<byte>)
    ensures Crc(Crc(crc, a), b) == Crc(crc, a + b)
  {
    hide Divide, Xor;
    DivideAppend(Xor(crc, ONES), a, b);
    XorFacts(Divide(Xor(crc, ONES), a), ONES);
  }

  lemma EmptyMessage(crc: bv32)
    ensures Crc(crc, []) == crc
  {
    XorFacts(crc, ONES);
  }

  lemma XorInjective(c: bv32, d: bv32, x: bv32)
    requires c != d
    ensures Xor(c, x) != Xor(d, x)
  {}

  lemma HalvesDiffer(x: bv32, y: bv32)
    requires x != y && LowBit(x) == LowBit(y)
    ensures Half(x) != Half(y)
  {}

  /** The top bit of a half is clear, and that of the polynomial is set. */
  lemma TopBit(x: bv32, y: bv32)
    ensures Xor(POLY, Half(x)) != Half(y)
  {}

  lemma AddedTwice(h: bv32, k: bv32)
    requires h != k
    ensures Xor(POLY, h) != Xor(POLY, k)
  {}

  lemma LowBits(x: bv32)
    ensures LowBit(x) == 0 || LowBit(x) == 1
  {}

  /** The top bit tells whether the polynomial was added, so nothing is lost by a shift. */
  lemma ShiftInjective(x: bv32, y: bv32)
    requires x != y
    ensures Shift(x) != Shift(y)
  {
    hide Shift, Half, LowBit, Xor;
    ShiftForm(x);
    ShiftForm(y);
    LowBits(x);
    LowBits(y);
    TopBit(x, y);
    TopBit(y, x);
    if LowBit(x) == LowBit(y) {
      HalvesDiffer(x, y);
      AddedTwice(Half(x), Half(y));
    }
  }

  lemma Shift8Injective(x: bv32, y: bv32)
    requires x != y
    ensures Shift8(x) != Shift8(y)
  {
    hide Shift;
    var a, b := x, y;
    ShiftInjective(a, b); a, b := Shift(a), Shift(b);
    ShiftInjective(a, b); a, b := Shift(a), Shift(b);
    ShiftInjective(a, b); a, b := Shift(a), Shift(b);
    ShiftInjective(a, b); a, b := Shift(a), Shift(b);
    ShiftInjective(a, b); a, b := Shift(a), Shift(b);
    ShiftInjective(a, b); a, b := Shift(a), Shift(b);
    ShiftInjective(a, b); a, b := Shift(a), Shift(b);
    ShiftInjective(a, b);
  }

  /** Remainders that differ stay different whatever follows. */
  lemma {:induction false} DivideInjective(c: bv32, d: bv32, message: seq<byte>)
    requires c != d
    ensures Divide(c, message) != Divide(d, message)
    decreases |message|
  {
    hide FeedBits, Shift8, Xor;
    if message != [] {
      var x := Word(message[0]);
      ByteStep(c, message[0]);
      ByteStep(d, message[0]);
      XorInjective(c, d, x);
      Shift8Injective(Xor(c, x), Xor(d, x));
      DivideInjective(FeedBits(c, x, 8), FeedBits(d, x, 8), message[1..]);
    }
  }

  lemma NibbleBack(n: int)
    requires 0 <= n < 16
    ensures Nibble(n) as int == n
  {}

  lemma NibbleInjective(m: int, n: int)
    requires 0 <= m < 16 && 0 <= n < 16 && Nibble(m) == Nibble(n)
    ensures m == n
  {
    hide Nibble;
    NibbleBack(m);
    NibbleBack(n);
  }

  lemma PackInjective(h: bv4, l: bv4, h': bv4, l': bv4)
    requires Pack(h, l) == Pack(h', l')
    ensures h == h' && l == l'
  {}

  lemma BytesDiffer(x: byte, y: byte)
    requires x != y
    ensures Word(x) != Word(y)
  {
    hide Pack, Nibble;
    if Word(x) == Word(y) {
      PackInjective(Nibble(x / 16), Nibble(x % 16), Nibble(y / 16), Nibble(y % 16));
      NibbleInjective(x / 16, y / 16);
      NibbleInjective(x % 16, y % 16);
    }
  }

  /** A change confined to one byte always changes the checksum. */
  lemma OneByteChangeDetected(crc: bv32, a: seq<byte>, x: byte, y: byte, b: seq<byte>)
    requires x != y
    ensures Crc(crc, a + [x] + b) != Crc(crc, a + [y] + b)
  {
    hide Divide, Shift8, FeedBits, Xor;
    var c := Divide(Xor(crc, ONES), a);
    AfterByte(Xor(crc, ONES), a, x, b);
    AfterByte(Xor(crc, ONES), a, y, b);
    BytesDiffer(x, y);
    XorInjective(Word(x), Word(y), c);
    XorCommutes(c, Word(x));
    XorCommutes(c, Word(y));
    Shift8Injective(Xor(c, Word(x)), Xor(c, Word(y)));
    var d, e := Shift8(Xor(c, Word(x))), Shift8(Xor(c, Word(y)));
    DivideInjective(d, e, b);
    XorInjective(Divide(d, b), Divide(e, b), ONES);
  }

  lemma AfterByte(start: bv32, a: seq<byte>, x: byte, b: seq<byte>)
    ensures Divide(start, a + [x] + b) == Divide(Shift8(Xor(Divide(start, a), Word(x))), b)
  {
    hide Shift8, FeedBits, Xor;
    var c := Divide(start, a);
    DivideAppend(start, a, [x] + b);
    assert a + ([x] + b) == a + [x] + b;
    assert ([x] + b)[1..] == b;
    ByteStep(c, x);
  }

  // ----- Known checksums -----

  lemma DigitWord(b: byte)
    requires 0x31 <= b <= 0x39
    ensures Word(b) == match b
                       case 0x31 => 0x31
                       case 0x32 => 0x32
                       case 0x33 => 0x33
                       case 0x34 => 0x34
                       case 0x35 => 0x35
                       case 0x36 => 0x36
                       case 0x37 => 0x37
                       case 0x38 => 0x38
                       case _ => 0x39
  {}

  lemma OneStep(c: bv32, b: byte, w: bv32, rest: seq<byte>, next: bv32)
    requires Word(b) == w && Shift8(Xor(c, w)) == next
    ensures Divide(c, [b] + rest) == Divide(next, rest)
  {
    hide Shift8, Xor, Word;
    ByteStep(c, b);
    assert ([b] + rest)[1..] == rest;
  }

  lemma Check1(rest: seq<byte>)
    ensures Divide(0xFFFFFFFF, [0x31] + rest) == Divide(0x7C231048, rest)
  {
    hide Divide;
    DigitWord(0x31);
    OneStep(0xFFFFFFFF, 0x31, 0x31, rest, 0x7C231048);
  }

  lemma Check2(rest: seq<byte>)
    ensures Divide(0x7C231048, [0x32] + rest) == Divide(0xB0ACBB32, rest)
  {
    hide Divide;
    DigitWord(0x32);
    OneStep(0x7C231048, 0x32, 0x32, rest, 0xB0ACBB32);
  }

  lemma Check3(rest: seq<byte>)
    ensures Divide(0xB0ACBB32, [0x33] + rest) == Divide(0x77B79C2D, rest)
  {
    hide Divide;
    DigitWord(0x33);
    OneStep(0xB0ACBB32, 0x33, 0x33, rest, 0x77B79C2D);
  }

  lemma Check4(rest: seq<byte>)
    ensures Divide(0x77B79C2D, [0x34] + rest) == Divide(0x641C1F5C, rest)
  {
    hide Divide;
    DigitWord(0x34);
    OneStep(0x77B79C2D, 0x34, 0x34, rest, 0x641C1F5C);
  }

  lemma Check5(rest: seq<byte>)
    ensures Divide(0x641C1F5C, [0x35] + rest) == Divide(0x340AC5E3, rest)
  {
    hide Divide;
    DigitWord(0x35);
    OneStep(0x641C1F5C, 0x35, 0x35, rest, 0x340AC5E3);
  }

  lemma Check6(rest: seq<byte>)
    ensures Divide(0x340AC5E3, [0x36] + rest) == Divide(0xF68D2C9E, rest)
  {
    hide Divide;
    DigitWord(0x36);
    OneStep(0x340AC5E3, 0x36, 0x36, rest, 0xF68D2C9E);
  }

  lemma Check7(rest: seq<byte>)
    ensures Divide(0xF68D2C9E, [0x37] + rest) == Divide(0xAFFC9660, rest)
  {
    hide Divide;
    DigitWord(0x37);
    OneStep(0xF68D2C9E, 0x37, 0x37, rest, 0xAFFC9660);
  }

  lemma Check8(rest: seq<byte>)
    ensures Divide(0xAFFC9660, [0x38] + rest) == Divide(0x651F2550, rest)
  {
    hide Divide;
    DigitWord(0x38);
    OneStep(0xAFFC9660, 0x38, 0x38, rest, 0x651F2550);
  }

  lemma Check9(rest: seq<byte>)
    ensures Divide(0x651F2550, [0x39] + rest) == Divide(0x340BC6D9, rest)
  {
    hide Divide;
    DigitWord(0x39);
    OneStep(0x651F2550, 0x39, 0x39, rest, 0x340BC6D9);
  }

  /** The digits from 1 to 9, the message by which variants of the checksum are told apart. */
  lemma CheckValue()
    ensures Crc(0, [0x31, 0x32, 0x33, 0x34, 0x35, 0x36, 0x37, 0x38, 0x39]) == 0xCBF4_3926
  {
    hide Divide;
    Check1([0x32, 0x33, 0x34, 0x35, 0x36, 0x37, 0x38, 0x39]);
    assert [0x31] + [0x32, 0x33, 0x34, 0x35, 0x36, 0x37, 0x38, 0x39]
      == [0x31, 0x32, 0x33, 0x34, 0x35, 0x36, 0x37, 0x38, 0x39];
    Check2([0x33, 0x34, 0x35, 0x36, 0x37, 0x38, 0x39]);
    assert [0x32] + [0x33, 0x34, 0x35, 0x36, 0x37, 0x38, 0x39] == [0x32, 0x33, 0x34, 0x35, 0x36, 0x37, 0x38, 0x39];
    Check3([0x34, 0x35, 0x36, 0x37, 0x38, 0x39]);
    assert [0x33] + [0x34, 0x35, 0x36, 0x37, 0x38, 0x39] == [0x33, 0x34, 0x35, 0x36, 0x37, 0x38, 0x39];
    Check4([0x35, 0x36, 0x37, 0x38, 0x39]);
    assert [0x34] + [0x35, 0x36, 0x37, 0x38, 0x39] == [0x34, 0x35, 0x36, 0x37, 0x38, 0x39];
    Check5([0x36, 0x37, 0x38, 0x39]);
    assert [0x35] + [0x36, 0x37, 0x38, 0x39] == [0x35, 0x36, 0x37, 0x38, 0x39];
    Check6([0x37, 0x38, 0x39]);
    assert [0x36] + [0x37, 0x38, 0x39] == [0x36, 0x37, 0x38, 0x39];
    Check7([0x38, 0x39]);
    assert [0x37] + [0x38, 0x39] == [0x37, 0x38, 0x39];
    Check8([0x39]);
    assert [0x38] + [0x39] == [0x38, 0x39];
    Check9([]);
    assert [0x39] + [] == [0x39];
    NothingLeft(0x340B_C6D9);
  }

  lemma NothingLeft(c: bv32)
    ensures Divide(c, []) == c
  {}
}
