/** Which code this is: the exponents of its divisor, and its check value. Words are bit vectors here. */
module Crc32cVectors {
  import opened Words
  import opened Crc32c

  // ----- the divisor -----

  /** Below x^32 the Castagnoli polynomial has these exponents, and the divisor holds them lowest power on top. */
  lemma Divisor()
    ensures REFLECTED_POLY ==
            Pow2(31 - 28) + Pow2(31 - 27) + Pow2(31 - 26) + Pow2(31 - 25) + Pow2(31 - 23) + Pow2(31 - 22)
            + Pow2(31 - 20) + Pow2(31 - 19) + Pow2(31 - 18) + Pow2(31 - 14) + Pow2(31 - 13) + Pow2(31 - 11)
            + Pow2(31 - 10) + Pow2(31 - 9) + Pow2(31 - 8) + Pow2(31 - 6) + Pow2(31 - 0)
  {
    assert Pow2(3) == 0x8 && Pow2(4) == 0x10 && Pow2(5) == 0x20 && Pow2(6) == 0x40;
    assert Pow2(8) == 0x100 && Pow2(9) == 0x200 && Pow2(11) == 0x800 && Pow2(12) == 0x1000 && Pow2(13) == 0x2000;
    assert Pow2(17) == 0x2_0000 && Pow2(18) == 0x4_0000 && Pow2(20) == 0x10_0000 && Pow2(21) == 0x20_0000;
    assert Pow2(22) == 0x40_0000 && Pow2(23) == 0x80_0000 && Pow2(25) == 0x200_0000 && Pow2(31) == 0x8000_0000;
  }

  // ----- words as bit vectors -----

  /** The number whose k low bits are those of v. */
  function Num(v: bv32, k: nat): (n: nat)
  {
    if k == 0 then 0 else (if v & 1 == 1 then 1 else 0) + 2 * Num(v >> 1, k - 1)
  }

  lemma BvXor(a: bv32, b: bv32)
    ensures (a ^ b) >> 1 == (a >> 1) ^ (b >> 1)
    ensures (a ^ b) & 1 == 1 <==> (a & 1 == 1) != (b & 1 == 1)
  {
  }

  lemma XorBits(x: nat, y: nat, p: bool, q: bool)
    ensures Xor(2 * x + (if p then 1 else 0), 2 * y + (if q then 1 else 0)) == 2 * Xor(x, y) + (if p != q then 1 else 0)
  {
    var a, b := 2 * x + (if p then 1 else 0), 2 * y + (if q then 1 else 0);
    assert a / 2 == x && b / 2 == y;
  }

  lemma {:induction false} XorNum(a: bv32, b: bv32, k: nat)
    ensures Xor(Num(a, k), Num(b, k)) == Num(a ^ b, k)
    decreases k
  {
    if k == 0 {
      XorZero(0);
    } else {
      XorNum(a >> 1, b >> 1, k - 1);
      BvXor(a, b);
      XorBits(Num(a >> 1, k - 1), Num(b >> 1, k - 1), a & 1 == 1, b & 1 == 1);
    }
  }

  lemma Halves(v: bv32, k: nat)
    ensures Num(v, k + 1) / 2 == Num(v >> 1, k) && (Num(v, k + 1) % 2 == 1 <==> v & 1 == 1)
  {
  }

  lemma BvNibble(v: bv32)
    ensures (v >> 1) >> 1 == v >> 2 && (v >> 2) >> 1 == v >> 3 && (v >> 3) >> 1 == v >> 4
    ensures ((v >> 1) & 1 == 1 <==> v & 2 == 2) && ((v >> 2) & 1 == 1 <==> v & 4 == 4)
    ensures (v >> 3) & 1 == 1 <==> v & 8 == 8
  {
  }

  function Nibble(v: bv32): nat {
    (if v & 1 == 1 then 1 else 0) + (if v & 2 == 2 then 2 else 0) + (if v & 4 == 4 then 4 else 0)
    + (if v & 8 == 8 then 8 else 0)
  }

  lemma NumNibble(v: bv32, k: nat)
    ensures Num(v, k + 4) == Nibble(v) + 16 * Num(v >> 4, k)
  {
    BvNibble(v);
    assert Num(v, k + 4) == (if v & 1 == 1 then 1 else 0) + 2 * Num(v >> 1, k + 3);
    assert Num(v >> 1, k + 3) == (if v & 2 == 2 then 1 else 0) + 2 * Num(v >> 2, k + 2);
    assert Num(v >> 2, k + 2) == (if v & 4 == 4 then 1 else 0) + 2 * Num(v >> 3, k + 1);
    assert Num(v >> 3, k + 1) == (if v & 8 == 8 then 1 else 0) + 2 * Num(v >> 4, k);
  }

  lemma {:induction false} NumZero(k: nat)
    ensures Num(0, k) == 0
    decreases k
  {
    if k > 0 {
      assert (0 as bv32) >> 1 == 0 && (0 as bv32) & 1 == 0;
      NumZero(k - 1);
    }
  }

  function ByteOf(v: bv32): (r: nat)
    ensures r < 256
  {
    Nibble(v) + 16 * Nibble(v >> 4)
  }

  lemma NumByte(v: bv32, k: nat)
    ensures Num(v, k + 8) == ByteOf(v) + 0x100 * Num(v >> 8, k)
  {
    assert (v >> 4) >> 4 == v >> 8;
    NumNibble(v, k + 4);
    NumNibble(v >> 4, k);
  }

  function Value(v: bv32): nat {
    ByteOf(v) + 0x100 * (ByteOf(v >> 8) + 0x100 * (ByteOf(v >> 16) + 0x100 * ByteOf(v >> 24)))
  }

  lemma BvBytes(v: bv32)
    ensures (v >> 8) >> 8 == v >> 16 && (v >> 16) >> 8 == v >> 24
  {
  }

  lemma NumHalf(v: bv32, k: nat)
    ensures Num(v, k + 16) == ByteOf(v) + 0x100 * (ByteOf(v >> 8) + 0x100 * Num(v >> 16, k))
  {
    BvBytes(v);
    NumByte(v, k + 8);
    NumByte(v >> 8, k);
  }

  lemma NumValue(v: bv32)
    ensures Num(v, 32) == Value(v)
  {
    NumHalf(v, 16);
    NumUpper(v >> 16);
    assert (v >> 16) >> 8 == v >> 24;
  }

  lemma NumUpper(v: bv32)
    ensures Num(v, 16) == ByteOf(v) + 0x100 * ByteOf(v >> 8)
  {
    NumHalf(v, 0);
    assert Num((v >> 16), 0) == 0;
  }

  /** The k-th bit of v is clear. */
  predicate Clear(v: bv32, k: nat) {
    if k == 0 then v & 1 == 0 else Clear(v >> 1, k - 1)
  }

  lemma ClearFour(v: bv32, k: nat)
    ensures Clear(v, k + 4) == Clear(v >> 4, k)
  {
    assert (v >> 1) >> 1 == v >> 2 && (v >> 2) >> 1 == v >> 3 && (v >> 3) >> 1 == v >> 4;
    assert Clear(v, k + 4) == Clear(v >> 1, k + 3);
    assert Clear(v >> 1, k + 3) == Clear(v >> 2, k + 2);
    assert Clear(v >> 2, k + 2) == Clear(v >> 3, k + 1);
  }

  lemma ClearEight(v: bv32, k: nat)
    ensures Clear(v, k + 8) == Clear(v >> 8, k)
  {
    assert (v >> 4) >> 4 == v >> 8;
    ClearFour(v, k + 4);
    ClearFour(v >> 4, k);
  }

  lemma ClearThree(w: bv32)
    requires w >> 3 == 0
    ensures Clear(w, 3)
  {
    assert ((w >> 1) >> 1) >> 1 == w >> 3;
    assert Clear(w, 3) == Clear(w >> 1, 2) == Clear((w >> 1) >> 1, 1) == Clear(((w >> 1) >> 1) >> 1, 0);
  }

  lemma BvTop(v: bv32)
    requires v & 0x8000_0000 == 0
    ensures (v >> 8) >> 8 == v >> 16 && (v >> 16) >> 15 == 0
  {
  }

  lemma BvUpper(w: bv32)
    requires w >> 15 == 0
    ensures ((w >> 8) >> 4) >> 3 == 0
  {
  }

  lemma ClearUpper(w: bv32)
    requires w >> 15 == 0
    ensures Clear(w, 15)
  {
    BvUpper(w);
    ClearEight(w, 7);
    ClearFour(w >> 8, 3);
    ClearThree((w >> 8) >> 4);
  }

  /** A word without its top bit. */
  lemma ClearTop(v: bv32)
    requires v & 0x8000_0000 == 0
    ensures Clear(v, 31)
  {
    BvTop(v);
    ClearEight(v, 23);
    ClearEight(v >> 8, 15);
    ClearUpper(v >> 16);
  }

  lemma {:induction false} NumClear(v: bv32, k: nat)
    requires Clear(v, k)
    ensures Num(v, k + 1) == Num(v, k)
    decreases k
  {
    if k > 0 {
      NumClear(v >> 1, k - 1);
    }
  }

  // ----- steps -----

  function BvStep(c: bv32): bv32 {
    if c & 1 == 1 then 0x82F6_3B78 ^ (c >> 1) else c >> 1
  }

  lemma Halved(c: bv32)
    ensures Num(c, 32) / 2 == Num(c >> 1, 32) && (Num(c, 32) % 2 == 1 <==> c & 1 == 1)
  {
    Halves(c, 31);
    assert (c >> 1) & 0x8000_0000 == 0;
    ClearTop(c >> 1);
    NumClear(c >> 1, 31);
  }

  lemma {:induction false} NumBound(v: bv32, k: nat)
    ensures Num(v, k) < Pow2(k)
    decreases k
  {
    if k > 0 {
      NumBound(v >> 1, k - 1);
    }
  }

  lemma NumWord(c: bv32)
    ensures Num(c, 32) < TWO_TO_THE_32
  {
    NumBound(c, 32);
    Pow2Of32();
  }

  lemma DivisorIs()
    ensures Num(0x82F6_3B78, 32) == REFLECTED_POLY
  {
    NumValue(0x82F6_3B78);
    assert Value(0x82F6_3B78) == 0x82F6_3B78;
  }

  lemma StepIs(c: bv32)
    ensures Num(c, 32) < TWO_TO_THE_32 && BitStep(Num(c, 32)) == Num(BvStep(c), 32)
  {
    NumWord(c);
    Halved(c);
    DivisorIs();
    XorNum(0x82F6_3B78, c >> 1, 32);
  }

  function BvSteps(c: bv32, k: nat): bv32
    decreases k
  {
    if k == 0 then c else BvSteps(BvStep(c), k - 1)
  }

  lemma {:induction false} StepsAre(c: bv32, k: nat)
    ensures Num(c, 32) < TWO_TO_THE_32 && BitSteps(Num(c, 32), k) == Num(BvSteps(c, k), 32)
    decreases k
  {
    StepIs(c);
    if k > 0 {
      StepsAre(BvStep(c), k - 1);
    }
  }

  lemma ByteIs(s: bv32, b: bv32)
    requires Num(b, 32) < 256
    ensures Num(s, 32) < TWO_TO_THE_32 && ByteStep(Num(s, 32), Num(b, 32)) == Num(BvSteps(s ^ b, 8), 32)
  {
    StepIs(s);
    XorNum(s, b, 32);
    StepsAre(s ^ b, 8);
  }

  /** A bit vector as the word it stands for. */
  function AsWord(v: bv32): Word32 {
    NumWord(v);
    Num(v, 32)
  }

  /** One byte absorbed. */
  lemma Absorbs(s: bv32, b: bv32, byte: Byte, rest: seq<Byte>, next: bv32)
    requires byte == Value(b) && next == BvSteps(s ^ b, 8)
    ensures BitwiseUpdate(AsWord(s), [byte] + rest) == BitwiseUpdate(AsWord(next), rest)
  {
    NumValue(b);
    ByteIs(s, b);
    assert ([byte] + rest)[1..] == rest;
  }

  lemma Starts()
    ensures AsWord(0xFFFF_FFFF) == INITIAL_STATE == XOR_OUT
  {
    NumValue(0xFFFF_FFFF);
    assert Value(0xFFFF_FFFF) == 0xFFFF_FFFF;
  }

  /** The checksum of a string, from the state that its bytes lead to. */
  lemma Finishes(data: seq<Byte>, last: bv32)
    requires BitwiseUpdate(AsWord(0xFFFF_FFFF), data) == AsWord(last)
    ensures Crc(data) == Value(last ^ 0xFFFF_FFFF)
  {
    Starts();
    XorNum(last, 0xFFFF_FFFF, 32);
    NumValue(last ^ 0xFFFF_FFFF);
  }

  // ----- the check string -----

  lemma CheckTrace()
    ensures BvSteps(0xFFFF_FFFF ^ 0x31, 8) == 0x6F0A_661C
    ensures BvSteps(0x6F0A_661C ^ 0x32, 8) == 0x8CAA_3B9F
    ensures BvSteps(0x8CAA_3B9F ^ 0x33, 8) == 0xEF84_D04D
    ensures BvSteps(0xEF84_D04D ^ 0x34, 8) == 0x09C5_0B11
    ensures BvSteps(0x09C5_0B11 ^ 0x35, 8) == 0xE72E_DCCA
    ensures BvSteps(0xE72E_DCCA ^ 0x36, 8) == 0xBECA_8E79
    ensures BvSteps(0xBECA_8E79 ^ 0x37, 8) == 0xEDBD_6815
    ensures BvSteps(0xEDBD_6815 ^ 0x38, 8) == 0x9F78_7F65
    ensures BvSteps(0x9F78_7F65 ^ 0x39, 8) == 0x1CF9_6D7C
  {
  }

  lemma Digits()
    ensures Value(0x31) == 0x31 && Value(0x32) == 0x32 && Value(0x33) == 0x33 && Value(0x34) == 0x34
    ensures Value(0x35) == 0x35
    ensures Value(0x36) == 0x36 && Value(0x37) == 0x37 && Value(0x38) == 0x38 && Value(0x39) == 0x39
  {
  }

  lemma FirstDigits(rest: seq<Byte>)
    ensures BitwiseUpdate(AsWord(0xFFFF_FFFF), [0x31] + ([0x32] + ([0x33] + rest))) ==
            BitwiseUpdate(AsWord(0xEF84_D04D), rest)
  {
    CheckTrace();
    Digits();
    Absorbs(0xFFFF_FFFF, 0x31, 0x31, [0x32] + ([0x33] + rest), 0x6F0A_661C);
    Absorbs(0x6F0A_661C, 0x32, 0x32, [0x33] + rest, 0x8CAA_3B9F);
    Absorbs(0x8CAA_3B9F, 0x33, 0x33, rest, 0xEF84_D04D);
  }

  lemma MiddleDigits(rest: seq<Byte>)
    ensures BitwiseUpdate(AsWord(0xEF84_D04D), [0x34] + ([0x35] + ([0x36] + rest))) ==
            BitwiseUpdate(AsWord(0xBECA_8E79), rest)
  {
    CheckTrace();
    Digits();
    Absorbs(0xEF84_D04D, 0x34, 0x34, [0x35] + ([0x36] + rest), 0x09C5_0B11);
    Absorbs(0x09C5_0B11, 0x35, 0x35, [0x36] + rest, 0xE72E_DCCA);
    Absorbs(0xE72E_DCCA, 0x36, 0x36, rest, 0xBECA_8E79);
  }

  lemma LastDigits(rest: seq<Byte>)
    ensures BitwiseUpdate(AsWord(0xBECA_8E79), [0x37] + ([0x38] + ([0x39] + rest))) ==
            BitwiseUpdate(AsWord(0x1CF9_6D7C), rest)
  {
    CheckTrace();
    Digits();
    Absorbs(0xBECA_8E79, 0x37, 0x37, [0x38] + ([0x39] + rest), 0xEDBD_6815);
    Absorbs(0xEDBD_6815, 0x38, 0x38, [0x39] + rest, 0x9F78_7F65);
    Absorbs(0x9F78_7F65, 0x39, 0x39, rest, 0x1CF9_6D7C);
  }

  lemma DigitString()
    ensures var last := [0x37] + ([0x38] + ([0x39] + []));
      var middle := [0x34] + ([0x35] + ([0x36] + last));
      [0x31, 0x32, 0x33, 0x34, 0x35, 0x36, 0x37, 0x38, 0x39] == [0x31] + ([0x32] + ([0x33] + middle))
  {
  }

  /** The state after the digits 1 to 9. */
  lemma CheckState()
    ensures BitwiseUpdate(AsWord(0xFFFF_FFFF), [0x31, 0x32, 0x33, 0x34, 0x35, 0x36, 0x37, 0x38, 0x39]) ==
            AsWord(0x1CF9_6D7C)
  {
    var last: seq<Byte> := [0x37] + ([0x38] + ([0x39] + []));
    var middle: seq<Byte> := [0x34] + ([0x35] + ([0x36] + last));
    DigitString();
    FirstDigits(middle);
    MiddleDigits(last);
    LastDigits([]);
  }

  lemma LastValue()
    ensures Value(0x1CF9_6D7C ^ 0xFFFF_FFFF) == 0xE306_9283
  {
  }

  /** The code's check value: the checksum of the digits 1 to 9. */
  lemma CheckValue()
    ensures Crc([0x31, 0x32, 0x33, 0x34, 0x35, 0x36, 0x37, 0x38, 0x39]) == 0xE306_9283
  {
    CheckState();
    Finishes([0x31, 0x32, 0x33, 0x34, 0x35, 0x36, 0x37, 0x38, 0x39], 0x1CF9_6D7C);
    LastValue();
  }
}
