/**
  Which checksum it is: the polynomial, the check value and the residue of
  CRC-32 (libs/libpartman/src/crc32.c; section 8 of RFC 1952).  Remainders are
  worked out on machine words, which denote the numbers of the specification.
 */
module CrcCheck {
  import opened Words
  import opened Memutils
  import opened Crc32

  //////////////////////////////////////////////////////////////////////////////
  // The polynomial
  //////////////////////////////////////////////////////////////////////////////

  /** The exponents below 32 of the generator polynomial. */
  const EXPONENTS: set<nat> := {0, 1, 2, 4, 5, 7, 8, 10, 11, 12, 16, 22, 23, 26}

  /** The word holds the polynomial in reflected bit order. */
  lemma PolyBits(k: nat)
    requires k < 32
    ensures POLY / Pow2(31 - k) % 2 == 1 <==> k in EXPONENTS
  {
    PowersBelow16();
    PowersBelow32();
  }

  lemma PowersBelow16()
    ensures Pow2(0) == 1 && Pow2(1) == 2 && Pow2(2) == 4 && Pow2(3) == 8
    ensures Pow2(4) == 0x10 && Pow2(5) == 0x20 && Pow2(6) == 0x40 && Pow2(7) == 0x80
    ensures Pow2(8) == 0x100 && Pow2(9) == 0x200 && Pow2(10) == 0x400 && Pow2(11) == 0x800
    ensures Pow2(12) == 0x1000 && Pow2(13) == 0x2000 && Pow2(14) == 0x4000 && Pow2(15) == 0x8000
  {
  }

  lemma PowersBelow32()
    ensures Pow2(16) == 0x1_0000 && Pow2(17) == 0x2_0000 && Pow2(18) == 0x4_0000 && Pow2(19) == 0x8_0000
    ensures Pow2(20) == 0x10_0000 && Pow2(21) == 0x20_0000 && Pow2(22) == 0x40_0000 && Pow2(23) == 0x80_0000
    ensures Pow2(24) == 0x100_0000 && Pow2(25) == 0x200_0000 && Pow2(26) == 0x400_0000 && Pow2(27) == 0x800_0000
    ensures Pow2(28) == 0x1000_0000 && Pow2(29) == 0x2000_0000 && Pow2(30) == 0x4000_0000 && Pow2(31) == 0x8000_0000
  {
    PowersBelow16();
  }

  //////////////////////////////////////////////////////////////////////////////
  // Machine words
  //////////////////////////////////////////////////////////////////////////////

  /** The number that the lowest "n" binary digits of a machine word denote. */
  function Num(w: bv32, n: nat): nat
    decreases n, w
  {
    if n == 0 then 0 else 2 * Num(w >> 1, n - 1) + Low(w)
  }

  function Low(w: bv32): nat {
    if w & 1 == 1 then 1 else 0
  }

  function Value(w: bv32): nat {
    Num(w, 32)
  }

  lemma NumDigit(w: bv32, n: nat) returns (h: bv32, low: nat)
    ensures h == w >> 1 && low == Low(w) < 2 && Num(w, n + 1) == 2 * Num(h, n) + low
  {
    h, low := w >> 1, Low(w);
  }

  lemma LowXor(a: bv32, b: bv32)
    ensures Low(a ^ b) == if Low(a) == Low(b) then 0 else 1
    ensures (a ^ b) >> 1 == (a >> 1) ^ (b >> 1)
  {
  }

  /** The lowest digits of two words and of their exclusive or, and what is above them. */
  lemma XorDigits(a: bv32, b: bv32, c: bv32, n: nat) returns (g: bv32, h: bv32, k: bv32, i: nat, j: nat, l: nat)
    requires c == a ^ b
    ensures k == g ^ h && i < 2 && j < 2 && l == if i == j then 0 else 1
    ensures Num(a, n + 1) == 2 * Num(g, n) + i
    ensures Num(b, n + 1) == 2 * Num(h, n) + j
    ensures Num(c, n + 1) == 2 * Num(k, n) + l
  {
    LowXor(a, b);
    g, i := NumDigit(a, n);
    h, j := NumDigit(b, n);
    k, l := NumDigit(c, n);
  }

  lemma XorDigit(a: nat, i: nat, b: nat, j: nat, x: nat, y: nat, z: nat)
    requires i < 2 && j < 2 && x == 2 * a + i && y == 2 * b + j && z == 2 * Xor(a, b) + if i == j then 0 else 1
    ensures z == Xor(x, y)
  {
    XorParts(x, y);
  }

  /** The machine's exclusive or is that of the numbers. */
  lemma {:induction false} NumXor(a: bv32, b: bv32, c: bv32, n: nat)
    requires c == a ^ b
    ensures Num(c, n) == Xor(Num(a, n), Num(b, n))
    decreases n
  {
    if n > 0 {
      var g, h, k, i, j, l := XorDigits(a, b, c, n - 1);
      NumXor(g, h, k, n - 1);
      XorDigit(Num(g, n - 1), i, Num(h, n - 1), j, Num(a, n), Num(b, n), Num(c, n));
    } else {
      assert Xor(0, 0) == 0;
    }
  }

  lemma {:induction false} NumBound(w: bv32, n: nat)
    ensures Num(w, n) < Pow2(n)
    decreases n
  {
    if n > 0 {
      NumBound(w >> 1, n - 1);
    }
  }

  lemma ValueFits(w: bv32)
    ensures Value(w) <= ONES
  {
    Pow2Values();
    NumBound(w, 32);
  }

  function Shift(w: bv32, n: nat): bv32
    decreases n
  {
    if n == 0 then w else Shift(w >> 1, n - 1)
  }

  /** Zeros in front of a word do not count. */
  lemma {:induction false} NumDrop(w: bv32, m: bv32, n: nat)
    requires w <= m && Shift(m, n) == 0
    ensures Num(w, n + 1) == Num(w, n)
    decreases n
  {
    if n > 0 {
      NumDrop(w >> 1, m >> 1, n - 1);
    }
  }

  lemma ShiftedOut()
    ensures Shift(0x7FFF_FFFF, 31) == 0
  {
    assert Shift(0x7F, 7) == 0;
    assert Shift(0x7FFF, 15) == 0;
    assert Shift(0x7F_FFFF, 23) == 0;
  }

  lemma ValueHalf(w: bv32, h: bv32)
    requires h == w >> 1
    ensures Value(h) == Value(w) / 2 && Low(w) == Value(w) % 2
  {
    var top: bv32 := 0x7FFF_FFFF;
    ShiftedOut();
    assert h <= top;
    NumDrop(h, top, 31);
  }

  //////////////////////////////////////////////////////////////////////////////
  // Constants
  //////////////////////////////////////////////////////////////////////////////

  function LowTwo(w: bv32): nat {
    Low(w) + 2 * Low(w >> 1)
  }

  lemma NumTwo(w: bv32, u: bv32, n: nat)
    requires u == (w >> 1) >> 1
    ensures Num(w, n + 2) == 4 * Num(u, n) + LowTwo(w)
  {
    var a, i := NumDigit(w, n + 1);
    var b, j := NumDigit(a, n);
  }

  /** One hexadecimal digit more. */
  lemma NumMore(w: bv32, v: bv32, n: nat, x: nat)
    requires v == (((w >> 1) >> 1) >> 1) >> 1 && x == Num(v, n)
    ensures Num(w, n + 4) == 0x10 * x + 4 * LowTwo((w >> 1) >> 1) + LowTwo(w)
  {
    var u := (w >> 1) >> 1;
    NumTwo(w, u, n + 2);
    NumTwo(u, v, n);
  }

  lemma ValuePoly()
    ensures Value(0xEDB8_8320) == POLY
  {
    NumMore(0xE, 0, 0, 0);
    NumMore(0xED, 0xE, 4, 0xE);
    NumMore(0xEDB, 0xED, 8, 0xED);
    NumMore(0xEDB8, 0xEDB, 12, 0xEDB);
    NumMore(0xE_DB88, 0xEDB8, 16, 0xEDB8);
    NumMore(0xED_B883, 0xE_DB88, 20, 0xE_DB88);
    NumMore(0xEDB_8832, 0xED_B883, 24, 0xED_B883);
    NumMore(0xEDB8_8320, 0xEDB_8832, 28, 0xEDB_8832);
  }

  lemma ValueOnes()
    ensures Value(0xFFFF_FFFF) == ONES
  {
    NumMore(0xF, 0x0, 0, 0x0);
    NumMore(0xFF, 0xF, 4, 0xF);
    NumMore(0xFFF, 0xFF, 8, 0xFF);
    NumMore(0xFFFF, 0xFFF, 12, 0xFFF);
    NumMore(0xF_FFFF, 0xFFFF, 16, 0xFFFF);
    NumMore(0xFF_FFFF, 0xF_FFFF, 20, 0xF_FFFF);
    NumMore(0xFFF_FFFF, 0xFF_FFFF, 24, 0xFF_FFFF);
    NumMore(0xFFFF_FFFF, 0xFFF_FFFF, 28, 0xFFF_FFFF);
  }

  lemma ValueCheck()
    ensures Value(0x340B_C6D9) == 0x340B_C6D9
  {
    NumMore(0x3, 0x0, 0, 0x0);
    NumMore(0x34, 0x3, 4, 0x3);
    NumMore(0x340, 0x34, 8, 0x34);
    NumMore(0x340B, 0x340, 12, 0x340);
    NumMore(0x3_40BC, 0x340B, 16, 0x340B);
    NumMore(0x34_0BC6, 0x3_40BC, 20, 0x3_40BC);
    NumMore(0x340_BC6D, 0x34_0BC6, 24, 0x34_0BC6);
    NumMore(0x340B_C6D9, 0x340_BC6D, 28, 0x340_BC6D);
  }

  lemma ValueFinal()
    ensures Value(0xCBF4_3926) == 0xCBF4_3926
  {
    NumMore(0xC, 0x0, 0, 0x0);
    NumMore(0xCB, 0xC, 4, 0xC);
    NumMore(0xCBF, 0xCB, 8, 0xCB);
    NumMore(0xCBF4, 0xCBF, 12, 0xCBF);
    NumMore(0xC_BF43, 0xCBF4, 16, 0xCBF4);
    NumMore(0xCB_F439, 0xC_BF43, 20, 0xC_BF43);
    NumMore(0xCBF_4392, 0xCB_F439, 24, 0xCB_F439);
    NumMore(0xCBF4_3926, 0xCBF_4392, 28, 0xCBF_4392);
  }

  lemma ValueResidue()
    ensures Value(0xDEBB_20E3) == 0xDEBB_20E3
  {
    NumMore(0xD, 0x0, 0, 0x0);
    NumMore(0xDE, 0xD, 4, 0xD);
    NumMore(0xDEB, 0xDE, 8, 0xDE);
    NumMore(0xDEBB, 0xDEB, 12, 0xDEB);
    NumMore(0xD_EBB2, 0xDEBB, 16, 0xDEBB);
    NumMore(0xDE_BB20, 0xD_EBB2, 20, 0xD_EBB2);
    NumMore(0xDEB_B20E, 0xDE_BB20, 24, 0xDE_BB20);
    NumMore(0xDEBB_20E3, 0xDEB_B20E, 28, 0xDEB_B20E);
  }

  lemma {:induction false} NumZero(n: nat)
    ensures Num(0, n) == 0
  {
    if n > 0 {
      NumZero(n - 1);
    }
  }

  /** The digits 1 to 9 in ASCII. */
  lemma ValueChar(w: bv32)
    requires 0x31 <= w <= 0x39
    ensures Value(w) == 0x30 + 4 * LowTwo((w >> 1) >> 1) + LowTwo(w)
  {
    NumZero(24);
    NumMore(3, 0, 24, 0);
    assert (((w >> 1) >> 1) >> 1) >> 1 == 3;
    NumMore(w, 3, 28, 3);
  }

  //////////////////////////////////////////////////////////////////////////////
  // Division
  //////////////////////////////////////////////////////////////////////////////

  function StepWord(w: bv32): bv32 {
    if w & 1 == 1 then (w >> 1) ^ 0xEDB8_8320 else w >> 1
  }

  lemma StepXor(h: bv32) returns (d: bv32)
    ensures d == h ^ 0xEDB8_8320 && Value(d) == Xor(Value(h), POLY)
  {
    d := h ^ 0xEDB8_8320;
    ValuePoly();
    NumXor(h, 0xEDB8_8320, d, 32);
  }

  lemma StepParts(n: u32, h: nat, d: nat)
    requires h == n / 2 && d == Xor(h, POLY)
    ensures DivStep(n) == if n % 2 == 1 then d else h
  {
    XorZero(h);
  }

  /** A division step of the machine is one of the specification. */
  lemma StepValue(w: bv32)
    ensures Value(w) <= ONES && DivStep(Value(w)) == Value(StepWord(w))
  {
    ValueFits(w);
    ValueHalf(w, w >> 1);
    var d := StepXor(w >> 1);
    StepParts(Value(w), Value(w >> 1), Value(d));
  }

  function StepsWord(w: bv32, n: nat): bv32
    decreases n
  {
    if n == 0 then w else StepWord(StepsWord(w, n - 1))
  }

  lemma {:induction false} StepsValue(w: bv32, n: nat)
    ensures Value(w) <= ONES && DivSteps(Value(w), n) == Value(StepsWord(w, n))
    decreases n
  {
    ValueFits(w);
    if n > 0 {
      StepsValue(w, n - 1);
      StepValue(StepsWord(w, n - 1));
    }
  }

  function StepByte(w: bv32): bv32 {
    StepsWord(w, 8)
  }

  /** A byte of the message, divided on the machine. */
  lemma ByteValue(c: u32, b: byte, w: bv32, v: bv32, x: bv32)
    requires c == Value(w) && b == Value(v) && x == w ^ v
    ensures DivideBits(c, b, 8) == Value(StepByte(x))
  {
    ByteIsSteps(c, b);
    NumXor(w, v, x, 32);
    StepsValue(x, 8);
  }

  //////////////////////////////////////////////////////////////////////////////
  // The check value
  //////////////////////////////////////////////////////////////////////////////

  /** The digit "k" of the message takes the remainder from word "w" to "x". */
  lemma Extend(s: seq<byte>, k: nat, w: bv32, v: bv32, x: bv32)
    requires k < |s| && DivideBytes(ONES, s[..k]) == Value(w) && s[k] == Value(v) && x == StepByte(w ^ v)
    ensures DivideBytes(ONES, s[..k + 1]) == Value(x)
  {
    var t := s[..k + 1];
    assert t[..|t| - 1] == s[..k];
    ByteValue(DivideBytes(ONES, s[..k]), s[k], w, v, w ^ v);
  }

  predicate IsDigits(s: seq<byte>) {
    |s| == 9 && forall i :: 0 <= i < 9 ==> s[i] == 0x31 + i
  }

  lemma NothingYet(s: seq<byte>)
    ensures DivideBytes(ONES, s[..0]) == Value(0xFFFF_FFFF)
  {
    ValueOnes();
    assert s[..0] == [];
  }

  lemma FirstThree(s: seq<byte>)
    requires IsDigits(s)
    ensures DivideBytes(ONES, s[..3]) == Value(0x77B7_9C2D)
  {
    NothingYet(s);
    ValueChar(0x31);
    ValueChar(0x32);
    ValueChar(0x33);
    Extend(s, 0, 0xFFFF_FFFF, 0x31, 0x7C23_1048);
    Extend(s, 1, 0x7C23_1048, 0x32, 0xB0AC_BB32);
    Extend(s, 2, 0xB0AC_BB32, 0x33, 0x77B7_9C2D);
  }

  lemma FirstSix(s: seq<byte>)
    requires IsDigits(s)
    ensures DivideBytes(ONES, s[..6]) == Value(0xF68D_2C9E)
  {
    FirstThree(s);
    ValueChar(0x34);
    ValueChar(0x35);
    ValueChar(0x36);
    Extend(s, 3, 0x77B7_9C2D, 0x34, 0x641C_1F5C);
    Extend(s, 4, 0x641C_1F5C, 0x35, 0x340A_C5E3);
    Extend(s, 5, 0x340A_C5E3, 0x36, 0xF68D_2C9E);
  }

  lemma FirstNine(s: seq<byte>)
    requires IsDigits(s)
    ensures DivideBytes(ONES, s[..9]) == Value(0x340B_C6D9)
  {
    FirstSix(s);
    ValueChar(0x37);
    ValueChar(0x38);
    ValueChar(0x39);
    Extend(s, 6, 0xF68D_2C9E, 0x37, 0xAFFC_9660);
    Extend(s, 7, 0xAFFC_9660, 0x38, 0x651F_2550);
    Extend(s, 8, 0x651F_2550, 0x39, 0x340B_C6D9);
  }

  /** The checksum of "123456789" is the check value of CRC-32. */
  lemma CheckValue(s: seq<byte>)
    requires IsDigits(s)
    ensures Checksum(s) == 0xCBF4_3926
  {
    FirstNine(s);
    assert s[..9] == s;
    ValueCheck();
    ValueOnes();
    NumXor(0x340B_C6D9, 0xFFFF_FFFF, 0xCBF4_3926, 32);
    ValueFinal();
  }

  //////////////////////////////////////////////////////////////////////////////
  // The residue
  //////////////////////////////////////////////////////////////////////////////

  /** Dividing the bytes of a number is taking steps from the exclusive or. */
  lemma {:induction false} DivideNumber(c: u32, d: u32, n: nat)
    requires d < Pow2(8 * n)
    ensures DivideBytes(c, Le(d, n)) == DivSteps(Xor32(c, d), 8 * n)
    decreases n
  {
    if n == 0 {
      XorZero(c);
    } else {
      var h, l := d / 0x100, d % 0x100;
      Pow2Add(8 * (n - 1));
      DivideNumber(DivideBits(c, l, 8), h, n - 1);
      LowByteFirst(c, d, h, l, n - 1);
      NumberSteps(c, h, l, d, 8 * (n - 1));
    }
  }

  lemma LowByteFirst(c: u32, d: u32, h: nat, l: byte, n: nat)
    requires h == d / 0x100 && l == d % 0x100
    ensures DivideBytes(c, Le(d, n + 1)) == DivideBytes(DivideBits(c, l, 8), Le(h, n))
  {
    LeStep(d, n);
    DivideOne(c, l);
    DivideConcat(c, [l], Le(h, n));
  }

  lemma NumberSteps(c: u32, h: u32, l: byte, d: u32, m: nat)
    requires d == 0x100 * h + l
    ensures DivSteps(Xor32(c, d), m + 8) == DivSteps(Xor32(DivideBits(c, l, 8), h), m)
  {
    NumberXor(c, h, l, d);
    EightSteps(Xor32(c, l), h, 0x100 * h);
    ByteIsSteps(c, l);
    StepsAdd(Xor32(c, d), 8, m);
  }

  lemma NumberXor(c: u32, h: nat, l: byte, d: u32)
    requires d == 0x100 * h + l
    ensures Xor(c, d) == Xor(Xor(c, l), 0x100 * h)
  {
    Pow2Values();
    XorDisjoint(h, l, 8);
    XorComm(h * 0x100, l);
    XorAssoc(c, l, h * 0x100);
  }

  lemma EightSteps(x: u32, h: u32, y: u32)
    requires y == 0x100 * h
    ensures DivSteps(Xor32(x, y), 8) == Xor(DivSteps(x, 8), h)
  {
    Pow2Values();
    StepsLinear(x, y, 8);
    StepsShift(h, 8);
  }

  lemma ResidueSteps()
    ensures StepByte(0xFFFF_FFFF) == 0x2DFD_1072
    ensures StepByte(0x2DFD_1072) == 0xBE26_ED00
    ensures StepByte(0xBE26_ED00) == 0xBE_26ED
    ensures StepByte(0xBE_26ED) == 0xDEBB_20E3
  {
  }

  lemma StepsOfOnes(c: u32, n: nat)
    requires c == ONES && n == 8
    ensures DivSteps(c, 4 * n) == 0xDEBB_20E3
  {
    ValueOnes();
    ValueResidue();
    ResidueSteps();
    StepsAdd(c, n, 3 * n);
    StepsValue(0xFFFF_FFFF, n);
    StepsAdd(DivSteps(c, n), n, 2 * n);
    StepsValue(0x2DFD_1072, n);
    StepsAdd(DivSteps(DivSteps(c, n), n), n, n);
    StepsValue(0xBE26_ED00, n);
    StepsValue(0xBE_26ED, n);
  }

  /** Whatever the message, with its checksum behind it the same remainder is left. */
  lemma Residue(s: seq<byte>)
    ensures DivideBytes(ONES, s + Le(Checksum(s), 4)) == 0xDEBB_20E3
  {
    var c, d := DivideBytes(ONES, s), Checksum(s);
    Pow2Values();
    DivideConcat(ONES, s, Le(d, 4));
    DivideNumber(c, d, 4);
    XorAssoc(c, c, ONES);
    XorSelf(c);
    XorZero(ONES);
    StepsOfOnes(Xor32(c, d), 8);
  }

  /** Nothing has checksum zero. */
  lemma EmptyChecksum()
    ensures Checksum([]) == 0
  {
    XorSelf(ONES);
  }
}
