/**
  CRC-32 (libs/libpartman/src/crc32.c; the same code as section 8 of RFC 1952).
  The specification divides the message by the generator polynomial one bit at
  a time; the program looks whole bytes up in a table.
 */
module Crc32 {
  import opened Words
  import opened Memutils

  const POLY: u32 := 0xEDB8_8320
  const ONES: u32 := 0xFFFF_FFFF

  //////////////////////////////////////////////////////////////////////////////
  // Bit by bit
  //////////////////////////////////////////////////////////////////////////////

  /** Exclusive or of two 32-bit words. */
  function Xor32(a: u32, b: u32): (r: u32)
    ensures r == Xor(a, b)
  {
    Pow2Values();
    XorBound(a, b, 32);
    Xor(a, b)
  }

  /** One step of the polynomial division (reflected bit order). */
  function DivStep(c: u32): u32
  {
    Xor32(c / 2, if c % 2 == 1 then POLY else 0)
  }

  function DivSteps(c: u32, n: nat): u32
  {
    if n == 0 then c else DivStep(DivSteps(c, n - 1))
  }

  /** Divides the low "n" bits of "b" into the remainder, lowest bit first. */
  function DivideBits(c: u32, b: nat, n: nat): u32
    decreases n, c
  {
    if n == 0 then c else DivideBits(DivStep(Xor32(c, b % 2)), b / 2, n - 1)
  }

  /** The remainder after a whole byte string, one bit at a time. */
  function DivideBytes(c: u32, s: seq<byte>): u32
  {
    if s == [] then c else DivideBits(DivideBytes(c, s[..|s| - 1]), s[|s| - 1], 8)
  }

  /** The checksum of a byte string. */
  function Checksum(s: seq<byte>): u32
  {
    Xor32(DivideBytes(ONES, s), ONES)
  }

  //////////////////////////////////////////////////////////////////////////////
  // Linearity
  //////////////////////////////////////////////////////////////////////////////

  lemma {:induction false} StepLinear(a: u32, b: u32)
    ensures DivStep(Xor32(a, b)) == Xor(DivStep(a), DivStep(b))
  {
    var pa, pb := if a % 2 == 1 then POLY else 0, if b % 2 == 1 then POLY else 0;
    XorParts(a, b);
    XorSwap(a / 2, pa, b / 2, pb);
    XorSelf(POLY);
    XorSelf(0);
    XorZero(POLY);
  }

  lemma {:induction false} StepsLinear(a: u32, b: u32, n: nat)
    ensures DivSteps(Xor32(a, b), n) == Xor(DivSteps(a, n), DivSteps(b, n))
  {
    if n > 0 {
      StepsLinear(a, b, n - 1);
      StepLinear(DivSteps(a, n - 1), DivSteps(b, n - 1));
    }
  }

  lemma {:induction false} StepsFront(c: u32, n: nat)
    ensures DivSteps(c, n + 1) == DivSteps(DivStep(c), n)
  {
    if n > 0 {
      StepsFront(c, n - 1);
    }
  }

  lemma {:induction false} StepEven(c: u32)
    requires c % 2 == 0
    ensures DivStep(c) == c / 2
  {
    XorZero(c / 2);
  }

  /** Bits below the top one only shift down. */
  lemma {:induction false} StepsShift(c: nat, n: nat)
    requires c * Pow2(n) <= ONES
    ensures DivSteps(c * Pow2(n), n) == c
  {
    if n > 0 {
      var p := Pow2(n - 1);
      assert c * Pow2(n) == 2 * (c * p);
      StepEven(2 * (c * p));
      StepsFront(c * Pow2(n), n - 1);
      StepsShift(c, n - 1);
    } else {
      assert c * Pow2(0) == c;
    }
  }

  /** A remainder without a top bit came from an even one. */
  lemma {:induction false} StepBack(c: u32)
    requires DivStep(c) < 0x8000_0000
    ensures c == 2 * DivStep(c)
  {
    Pow2Values();
    if c % 2 == 1 {
      XorTop(c / 2, POLY, 31);
      assert false;
    } else {
      StepEven(c);
    }
  }

  /** If n steps leave the top n bits clear, they were a shift by n. */
  lemma {:induction false} StepsBack(c: u32, n: nat)
    requires n <= 32 && DivSteps(c, n) < Pow2(32 - n)
    ensures c == DivSteps(c, n) * Pow2(n)
  {
    if n > 0 {
      var d := DivSteps(c, n - 1);
      SmallStep(d, n);
      StepsBack(c, n - 1);
      MulAssoc(DivStep(d), 2, Pow2(n - 1));
    }
  }

  lemma SmallStep(d: u32, n: nat)
    requires 1 <= n <= 32 && DivStep(d) < Pow2(32 - n)
    ensures d == 2 * DivStep(d) && d < Pow2(32 - (n - 1))
  {
    Pow2Values();
    Pow2Mono(32 - n, 31);
    StepBack(d);
  }

  lemma {:induction false} Pow2Mono(m: nat, n: nat)
    requires m <= n
    ensures Pow2(m) <= Pow2(n)
  {
    if m < n {
      Pow2Mono(m, n - 1);
    }
  }

  //////////////////////////////////////////////////////////////////////////////
  // Byte by byte
  //////////////////////////////////////////////////////////////////////////////

  /** The table entry that the program keeps for a byte. */
  function Entry(b: byte): u32 {
    DivSteps(b, 8)
  }

  /** Dividing eight message bits is eight steps from the combined word. */
  lemma {:induction false} DivideBitsIsSteps(c: u32, b: u32, n: nat)
    requires b < Pow2(n)
    ensures DivideBits(c, b, n) == DivSteps(Xor32(c, b), n)
    decreases n
  {
    if n == 0 {
      XorZero(c);
    } else {
      var c' := Xor32(c, b % 2);
      SplitLowBit(c, b);
      DivideBitsIsSteps(DivStep(c'), b / 2, n - 1);
      StepsFront(Xor32(c, b), n - 1);
    }
  }

  /** A step of the combined word, taken with the low bit alone. */
  lemma SplitLowBit(c: u32, b: u32)
    ensures DivStep(Xor32(c, b)) == Xor32(DivStep(Xor32(c, b % 2)), b / 2)
  {
    var h: u32 := 2 * (b / 2);
    LowBitApart(c, b, h);
    StepLinear(Xor32(c, b % 2), h);
    StepEven(h);
  }

  lemma LowBitApart(c: u32, b: u32, h: u32)
    requires h == 2 * (b / 2)
    ensures Xor32(c, b) == Xor32(Xor32(c, b % 2), h)
  {
    assert h == (b / 2) * Pow2(1);
    XorDisjoint(b / 2, b % 2, 1);
    XorComm(b % 2, h);
    XorAssoc(c, b % 2, h);
  }

  lemma ByteIsSteps(c: u32, b: byte)
    ensures DivideBits(c, b, 8) == DivSteps(Xor32(c, b), 8)
  {
    Pow2Values();
    DivideBitsIsSteps(c, b, 8);
  }

  /** Eight steps of a word: shift it by a byte and look the lost byte up. */
  lemma StepsByTable(x: u32)
    ensures DivSteps(x, 8) == Xor(x / 0x100, Entry(x % 0x100))
  {
    var h, l := x / 0x100, x % 0x100;
    Pow2Values();
    XorDisjoint(h, l, 8);
    StepsLinear(h * 0x100, l, 8);
    StepsShift(h, 8);
  }

  lemma {:induction false} DivideConcat(c: u32, s: seq<byte>, t: seq<byte>)
    ensures DivideBytes(c, s + t) == DivideBytes(DivideBytes(c, s), t)
  {
    if t == [] {
      assert s + t == s;
    } else {
      var u := s + t;
      assert u[..|u| - 1] == s + t[..|t| - 1];
      DivideConcat(c, s, t[..|t| - 1]);
    }
  }

  lemma DivideOne(c: u32, b: byte)
    ensures DivideBytes(c, [b]) == DivideBits(c, b, 8)
  {
    var s := [b];
    assert s[..|s| - 1] == [];
    assert DivideBytes(c, s[..|s| - 1]) == c;
  }

  lemma DivideFour(c: u32, b0: byte, b1: byte, b2: byte, b3: byte)
    ensures DivideBytes(DivideBytes(DivideBytes(DivideBytes(c, [b0]), [b1]), [b2]), [b3])
            == DivideBytes(c, [b0, b1, b2, b3])
  {
    DivideConcat(c, [b0], [b1]);
    DivideConcat(c, [b0] + [b1], [b2]);
    DivideConcat(c, [b0] + [b1] + [b2], [b3]);
    assert [b0] + [b1] + [b2] + [b3] == [b0, b1, b2, b3];
  }

  //////////////////////////////////////////////////////////////////////////////
  // Error detection
  //////////////////////////////////////////////////////////////////////////////

  /** Different remainders stay different whatever bytes follow. */
  lemma {:induction false} DivideInjective(c: u32, d: u32, s: seq<byte>)
    requires DivideBytes(c, s) == DivideBytes(d, s)
    ensures c == d
  {
    if s != [] {
      var b, s' := s[|s| - 1], s[..|s| - 1];
      var x, y := DivideBytes(c, s'), DivideBytes(d, s');
      SameAfterByte(x, b, y, b);
      XorCancel(x, y, b);
      DivideInjective(c, d, s');
    }
  }

  lemma SameAfterByte(x: u32, a: byte, y: u32, b: byte)
    requires DivideBits(x, a, 8) == DivideBits(y, b, 8)
    ensures Xor(x, a) == Xor(y, b)
  {
    ByteIsSteps(x, a);
    ByteIsSteps(y, b);
    var u, v := Xor32(x, a), Xor32(y, b);
    StepsLinear(u, v, 8);
    XorSelf(DivSteps(u, 8));
    StepsBack(Xor32(u, v), 8);
    XorIsZero(u, v);
  }

  /** How the difference of two remainders grows when one byte is taken back. */
  lemma DifferenceBack(x: u32, a: byte, y: u32, b: byte)
    requires Xor(DivideBits(x, a, 8), DivideBits(y, b, 8)) < Pow2(24)
    ensures Xor(Xor(x, y), Xor(a, b)) == Xor(DivideBits(x, a, 8), DivideBits(y, b, 8)) * Pow2(8)
  {
    ByteIsSteps(x, a);
    ByteIsSteps(y, b);
    var u, v := Xor32(x, a), Xor32(y, b);
    StepsLinear(u, v, 8);
    StepsBack(Xor32(u, v), 8);
    XorSwap(x, a, y, b);
  }

  /**
    Two windows of at most four bytes, entered with the same remainder and left
    with remainders that differ below bit m <= 32 - 8n only, are the same.
   */
  lemma {:induction false} WindowInjective(c: u32, s: seq<byte>, t: seq<byte>, m: nat)
    requires |s| == |t| && m + 8 * |s| <= 32
    requires Xor(DivideBytes(c, s), DivideBytes(c, t)) < Pow2(m)
    ensures s == t
  {
    if s != [] {
      var n := |s| - 1;
      var x, y := DivideBytes(c, s[..n]), DivideBytes(c, t[..n]);
      WindowStep(x, s[n], y, t[n], m);
      WindowInjective(c, s[..n], t[..n], m + 8);
      XorSelf(x);
      assert s == s[..n] + [s[n]] && t == t[..n] + [t[n]];
    }
  }

  /** One byte less: the difference may reach eight bits higher. */
  lemma WindowStep(x: u32, a: byte, y: u32, b: byte, m: nat)
    requires m <= 24
    requires Xor(DivideBits(x, a, 8), DivideBits(y, b, 8)) < Pow2(m)
    ensures Xor(x, y) < Pow2(m + 8)
    ensures Xor(x, y) == 0 ==> a == b
  {
    var r := Xor(DivideBits(x, a, 8), DivideBits(y, b, 8));
    Pow2Mono(m, 24);
    DifferenceBack(x, a, y, b);
    XorMove(Xor(x, y), a, b, r);
    Pow2Add(m);
    if Xor(x, y) == 0 {
      XorIsZero(a, b);
    }
  }

  lemma XorMove(d: nat, a: byte, b: byte, r: nat)
    requires Xor(d, Xor(a, b)) == r * Pow2(8)
    ensures d == r * 0x100 + Xor(a, b)
    ensures Xor(a, b) < 0x100
  {
    var e := Xor(a, b);
    Pow2Values();
    XorBound(a, b, 8);
    XorAssoc(d, e, e);
    XorSelf(e);
    XorZero(d);
    XorDisjoint(r, e, 8);
  }

  lemma Pow2Add(n: nat)
    ensures Pow2(n + 8) == 0x100 * Pow2(n)
  {
    Pow2Values();
    Pow2Product(n, 8);
  }

  /**
    Two byte strings of equal length that differ, but only inside a window of
    four bytes, have different checksums.
   */
  lemma BurstDetected(s: seq<byte>, t: seq<byte>, lo: nat)
    requires |s| == |t| && s != t
    requires forall i :: 0 <= i < |s| && !(lo <= i < lo + 4) ==> s[i] == t[i]
    ensures Checksum(s) != Checksum(t)
  {
    var n := |s|;
    var a := if lo < n then lo else n;
    var b := if lo + 4 < n then lo + 4 else n;
    assert s == s[..a] + (s[a..b] + s[b..]);
    assert t == s[..a] + (t[a..b] + s[b..]);
    if Checksum(s) == Checksum(t) {
      XorCancel(DivideBytes(ONES, s), DivideBytes(ONES, t), ONES);
      var c := DivideBytes(ONES, s[..a]);
      DivideConcat(ONES, s[..a], s[a..b] + s[b..]);
      DivideConcat(ONES, s[..a], t[a..b] + s[b..]);
      DivideConcat(c, s[a..b], s[b..]);
      DivideConcat(c, t[a..b], s[b..]);
      DivideInjective(DivideBytes(c, s[a..b]), DivideBytes(c, t[a..b]), s[b..]);
      XorSelf(DivideBytes(c, s[a..b]));
      WindowInjective(c, s[a..b], t[a..b], 0);
      assert false;
    }
  }

  //////////////////////////////////////////////////////////////////////////////
  // The program
  //////////////////////////////////////////////////////////////////////////////

  /** Entry 0 is zero and no other: a zero last entry means an unused table. */
  lemma EntryIsZero(b: byte)
    ensures Entry(b) == 0 <==> b == 0
  {
    Pow2Values();
    if b == 0 {
      StepsShift(b, 8);
    } else if Entry(b) == 0 {
      StepsBack(b, 8);
    }
  }

  /** Multiples of "i" in a stretch of 2*i that starts at a multiple of 2*i. */
  lemma MultipleInStretch(m: nat, i: nat, j: nat)
    requires i > 0 && m % i == 0 && j % (2 * i) == 0 && j <= m < j + 2 * i
    ensures m == j || m == j + i
  {
    var q, r := m / i, j / (2 * i);
    assert m == i * q;
    MulAssoc(i, 2, r);
    assert j == i * (2 * r);
    assert i * (2 * r + 2) == j + 2 * i;
    MulLess(i, q, 2 * r + 2);
    MulLess(i, 2 * r, q + 1);
    assert i * (2 * r + 1) == j + i;
  }

  /** Stretches whose length divides the table length tile the table. */
  lemma Stretch(j: nat, d: nat, p: nat)
    requires d > 0 && d * p == 0x100 && j < 0x100 && j % d == 0
    ensures j + d <= 0x100
  {
    var q := j / d;
    assert j == d * q;
    MulLess(d, q, p);
    MulMono(d, q + 1, p);
    assert d * (q + 1) == d * q + d;
  }

  lemma {:induction false} Pow2Product(m: nat, n: nat)
    ensures Pow2(m) * Pow2(n) == Pow2(m + n)
  {
    if m > 0 {
      Pow2Product(m - 1, n);
      var p, q := Pow2(m - 1), Pow2(n);
      assert (2 * p) * q == 2 * (p * q);
    }
  }

  /** What the doubling loop adds for the new power of two, i == 2^m. */
  lemma EntryOfSum(m: nat, i: nat, j: nat)
    requires m < 8 && i == Pow2(m) && i + j < 0x100
    requires j % (2 * i) == 0
    ensures DivSteps(i, 8) == DivSteps(1, 8 - m)
    ensures Entry(i + j) == Xor(DivSteps(1, 8 - m), Entry(j))
  {
    StepsOfSum(m, i, j, 8);
  }

  lemma StepsOfSum(m: nat, i: u32, j: u32, n: nat)
    requires m <= n && i == Pow2(m) && i + j < 0x1_0000_0000 && j % (2 * i) == 0
    ensures DivSteps(i, n) == DivSteps(1, n - m)
    ensures DivSteps(i + j, n) == Xor(DivSteps(1, n - m), DivSteps(j, n))
  {
    StepsOfPower(m, n, i);
    SumIsXor(m, i, j);
    StepsLinear(i, j, n);
  }

  lemma StepsOfPower(m: nat, n: nat, i: u32)
    requires m <= n && i == Pow2(m)
    ensures DivSteps(i, n) == DivSteps(1, n - m)
  {
    StepsAdd(i, m, n - m);
    StepsShift(1, m);
  }

  lemma SumIsXor(m: nat, i: nat, j: nat)
    requires i == Pow2(m) && j % (2 * i) == 0
    ensures Xor(i, j) == i + j
  {
    var h := j / (2 * i);
    assert Pow2(m + 1) == 2 * i;
    assert j == (2 * i) * h;
    assert h * Pow2(m + 1) == j;
    XorDisjoint(h, i, m + 1);
    XorComm(j, i);
  }

  lemma {:induction false} StepsAdd(c: u32, m: nat, n: nat)
    ensures DivSteps(c, m + n) == DivSteps(DivSteps(c, m), n)
  {
    if n > 0 {
      StepsAdd(c, m, n - 1);
    }
  }

  /** Entries below "n" at multiples of "i" are final. */
  ghost predicate Known(s: seq<u32>, i: nat, n: nat)
    requires |s| == 0x100 && i > 0
  {
    forall m :: 0 <= m < 0x100 && m < n && m % i == 0 ==> s[m] == Entry(m)
  }

  lemma NothingKnown(s: seq<u32>)
    requires |s| == 0x100 && forall b :: 0 <= b < 0x100 ==> s[b] == 0
    ensures Pow2(7) == 128 && Known(s, Pow2(8), 0x100)
  {
    Pow2Values();
    var zero := 0;
    EntryIsZero(zero);
  }

  lemma AllKnown(s: seq<u32>)
    requires |s| == 0x100 && Known(s, Pow2(0), 0x100)
    ensures forall b: byte :: s[b] == Entry(b)
  {
  }

  /** One assignment of the inner loop, for i == 2^m and d == 2 * i. */
  lemma ExtendKnown(s: seq<u32>, m: nat, i: nat, d: nat, j: nat, crc: u32)
    requires |s| == 0x100 && m < 8 && i == Pow2(m) && d == 2 * i && j < 0x100 && j % d == 0
    requires crc == DivSteps(1, 8 - m)
    requires Known(s, d, 0x100) && Known(s, i, j)
    ensures j + d <= 0x100 && (j + d) % d == 0
    ensures Known(s[i + j := Xor32(crc, s[j])], d, 0x100)
    ensures Known(s[i + j := Xor32(crc, s[j])], i, j + d)
  {
    StretchFits(m, i, j);
    NextMultiple(j, d);
    EntryAssigned(s, m, i, j, crc);
    ExtendBy(s, d, i, j, Xor32(crc, s[j]));
  }

  /** The value that is assigned is the entry of its place. */
  lemma EntryAssigned(s: seq<u32>, m: nat, i: nat, j: nat, crc: u32)
    requires |s| == 0x100 && m < 8 && i == Pow2(m) && j < 0x100 && j % (2 * i) == 0 && j + 2 * i <= 0x100
    requires crc == DivSteps(1, 8 - m) && Known(s, 2 * i, 0x100)
    ensures s[j] == Entry(j) && Xor32(crc, s[j]) == Entry(i + j)
  {
    KnownAt(s, 2 * i, j);
    EntryOfSum(m, i, j);
  }

  lemma ExtendBy(s: seq<u32>, d: nat, i: nat, j: nat, v: u32)
    requires |s| == 0x100 && i > 0 && d == 2 * i && i + j < 0x100 && j % d == 0 && s[j] == Entry(j) && v == Entry(i + j)
    requires Known(s, d, 0x100) && Known(s, i, j)
    ensures Known(s[i + j := v], d, 0x100) && Known(s[i + j := v], i, j + d)
  {
    KnownKept(s, d, i + j);
    KnownStretch(s, i, j);
  }

  lemma KnownAt(s: seq<u32>, d: nat, j: nat)
    requires |s| == 0x100 && d > 0 && j < 0x100 && j % d == 0 && Known(s, d, 0x100)
    ensures s[j] == Entry(j)
  {
  }

  lemma KnownKept(s: seq<u32>, d: nat, k: nat)
    requires |s| == 0x100 && d > 0 && k < 0x100 && Known(s, d, 0x100)
    ensures Known(s[k := Entry(k)], d, 0x100)
  {
  }

  lemma KnownStretch(s: seq<u32>, i: nat, j: nat)
    requires |s| == 0x100 && i > 0 && i + j < 0x100 && j % (2 * i) == 0 && s[j] == Entry(j)
    requires Known(s, i, j)
    ensures Known(s[i + j := Entry(i + j)], i, j + 2 * i)
  {
    var t := s[i + j := Entry(i + j)];
    forall n | 0 <= n < 0x100 && n < j + 2 * i && n % i == 0
      ensures t[n] == Entry(n)
    {
      if n >= j {
        MultipleInStretch(n, i, j);
      }
    }
  }

  lemma StretchFits(m: nat, i: nat, j: nat)
    requires m < 8 && i == Pow2(m) && j < 0x100 && j % (2 * i) == 0
    ensures j + 2 * i <= 0x100
  {
    Pow2Values();
    Pow2Product(m + 1, 7 - m);
    Stretch(j, 2 * i, Pow2(7 - m));
  }

  lemma NextMultiple(j: nat, d: nat)
    requires d > 0 && j % d == 0
    ensures (j + d) % d == 0
  {
    assert j == d * (j / d);
    assert j + d == d * (j / d + 1);
    MultipleMod(d, j / d + 1);
  }

  /** The global table of the program, zero until its first use. */
  class Table {
    const entries: array<u32>

    ghost predicate Empty()
      reads entries
    {
      forall b :: 0 <= b < entries.Length ==> entries[b] == 0
    }

    ghost predicate Filled()
      requires entries.Length == 0x100
      reads entries
    {
      forall b: byte :: entries[b] == Entry(b)
    }

    ghost predicate Valid()
      reads entries
    {
      entries.Length == 0x100 && (Empty() || Filled())
    }

    constructor ()
      ensures Valid() && Empty() && fresh(entries)
    {
      entries := new u32[0x100](_ => 0);
    }

    method Init()
      requires Valid() && Empty()
      modifies entries
      ensures Filled()
    {
      var crc: u32 := 1;
      var i := 128;
      ghost var m: nat := 8;
      NothingKnown(entries[..]);
      while i != 0
        invariant m <= 8 && (if m == 0 then i == 0 else i == Pow2(m - 1))
        invariant crc == DivSteps(1, 8 - m)
        invariant Known(entries[..], Pow2(m), 0x100)
        decreases m
      {
        m := m - 1;
        crc := DivStep(crc);
        FillOddMultiples(i, crc, m);
        i := i / 2;
      }
      AllKnown(entries[..]);
    }

    /** The inner loop of Init. */
    method FillOddMultiples(i: nat, crc: u32, ghost m: nat)
      requires entries.Length == 0x100 && m < 8 && i == Pow2(m) && crc == DivSteps(1, 8 - m)
      requires Known(entries[..], 2 * i, 0x100)
      modifies entries
      ensures Known(entries[..], i, 0x100)
    {
      var j := 0;
      ghost var d := 2 * i;
      while j < 0x100
        invariant j % d == 0
        invariant Known(entries[..], d, 0x100)
        invariant Known(entries[..], i, j)
      {
        FillOne(i, j, crc, m, d);
        j := j + 2 * i;
      }
    }

    method FillOne(i: nat, j: nat, crc: u32, ghost m: nat, ghost d: nat)
      requires entries.Length == 0x100 && m < 8 && i == Pow2(m) && crc == DivSteps(1, 8 - m)
      requires d == 2 * i && j < 0x100 && j % d == 0 && Known(entries[..], d, 0x100) && Known(entries[..], i, j)
      modifies entries
      ensures (j + d) % d == 0 && Known(entries[..], d, 0x100) && Known(entries[..], i, j + d)
    {
      ghost var before := entries[..];
      ExtendKnown(before, m, i, d, j, crc);
      entries[i + j] := Xor32(crc, entries[j]);
      assert entries[..] == before[i + j := Xor32(crc, before[j])];
    }

    method Compute8(crc: u32, b: byte) returns (r: u32)
      requires Valid()
      modifies entries
      ensures Valid()
      ensures r == DivideBytes(crc, [b])
    {
      var last := 255;
      EntryIsZero(last);
      if entries[last] == 0 {
        Init();
      }
      var x := Xor32(crc, b);
      r := Xor32(x / 0x100, entries[x % 0x100]);
      StepsByTable(x);
      ByteIsSteps(crc, b);
      DivideOne(crc, b);
    }

    method Compute16(crc: u32, i: nat) returns (r: u32)
      requires Valid()
      modifies entries
      ensures Valid()
      ensures r == DivideBytes(crc, Le(i, 2))
    {
      r := Compute8(crc, i % 0x100);
      r := Compute8(r, i / 0x100 % 0x100);
      assert Le2(i) == [i % 0x100] + [i / 0x100 % 0x100];
      DivideConcat(crc, [i % 0x100], [i / 0x100 % 0x100]);
    }

    method Compute32(crc: u32, i: nat) returns (r: u32)
      requires Valid()
      modifies entries
      ensures Valid()
      ensures r == DivideBytes(crc, Le(i, 4))
    {
      r := Compute8(crc, i % 0x100);
      r := Compute8(r, i / 0x100 % 0x100);
      r := Compute8(r, i / 0x1_0000 % 0x100);
      r := Compute8(r, i / 0x100_0000 % 0x100);
      LeOfFour(i);
      DivideFour(crc, i % 0x100, i / 0x100 % 0x100, i / 0x1_0000 % 0x100, i / 0x100_0000 % 0x100);
    }

    method Compute64(crc: u32, i: nat) returns (r: u32)
      requires Valid()
      modifies entries
      ensures Valid()
      ensures r == DivideBytes(crc, Le(i, 8))
    {
      r := Compute32(crc, i);
      r := Compute32(r, i / 0x1_0000_0000);
      LeSplit4(i);
      DivideConcat(crc, Le(i, 4), Le(i / 0x1_0000_0000, 4));
    }
  }

  //////////////////////////////////////////////////////////////////////////////
  // Feeding a structure field by field
  //////////////////////////////////////////////////////////////////////////////

  /** "rests[k]" is the remainder before field k. */
  datatype Feed = Feed(parts: seq<seq<byte>>, rests: seq<u32>)

  ghost predicate Fed(c: u32, f: Feed, k: nat) {
    && |f.rests| == |f.parts| + 1
    && (forall j :: 0 <= j < |f.parts| ==> Fold(f, j))
    && k <= |f.parts| && c == f.rests[k]
  }

  ghost predicate Fold(f: Feed, j: nat)
    requires |f.rests| == |f.parts| + 1 && j < |f.parts|
  {
    f.rests[j + 1] == DivideBytes(f.rests[j], f.parts[j])
  }

  /** Feeding the fields in turn divides the structure. */
  lemma {:induction false} FeedStages(c: u32, parts: seq<seq<byte>>) returns (f: Feed)
    ensures f.parts == parts && Fed(c, f, 0)
    ensures f.rests[|parts|] == DivideBytes(c, Concat(parts))
    decreases parts
  {
    if parts == [] {
      f := Feed(parts, [c]);
    } else {
      var d := DivideBytes(c, parts[0]);
      var tail := FeedStages(d, parts[1..]);
      f := Feed(parts, [c] + tail.rests);
      DivideConcat(c, parts[0], Concat(parts[1..]));
      forall j | 0 <= j < |parts|
        ensures Fold(f, j)
      {
        if j > 0 {
          assert Fold(tail, j - 1);
        }
      }
    }
  }

  method Feed8(t: Table, crc: u32, i: byte, ghost f: Feed, ghost k: nat) returns (r: u32)
    requires t.Valid() && Fed(crc, f, k) && k < |f.parts| && f.parts[k] == Le(i, 1)
    modifies t.entries
    ensures t.Valid() && Fed(r, f, k + 1)
  {
    assert Fold(f, k);
    r := t.Compute8(crc, i);
    assert Le(i, 1) == [i];
  }

  method Feed16(t: Table, crc: u32, i: nat, ghost f: Feed, ghost k: nat) returns (r: u32)
    requires t.Valid() && Fed(crc, f, k) && k < |f.parts| && f.parts[k] == Le(i, 2)
    modifies t.entries
    ensures t.Valid() && Fed(r, f, k + 1)
  {
    assert Fold(f, k);
    r := t.Compute16(crc, i);
  }

  method Feed32(t: Table, crc: u32, i: nat, ghost f: Feed, ghost k: nat) returns (r: u32)
    requires t.Valid() && Fed(crc, f, k) && k < |f.parts| && f.parts[k] == Le(i, 4)
    modifies t.entries
    ensures t.Valid() && Fed(r, f, k + 1)
  {
    assert Fold(f, k);
    r := t.Compute32(crc, i);
  }

  method Feed64(t: Table, crc: u32, i: nat, ghost f: Feed, ghost k: nat) returns (r: u32)
    requires t.Valid() && Fed(crc, f, k) && k < |f.parts| && f.parts[k] == Le(i, 8)
    modifies t.entries
    ensures t.Valid() && Fed(r, f, k + 1)
  {
    assert Fold(f, k);
    r := t.Compute64(crc, i);
  }
}
