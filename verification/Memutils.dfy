/**
  Little-endian integers in byte buffers (libs/libpartman/src/memutils.c), and
  records made of such integers: every on-disk structure is a list of field
  widths with a list of field values.
 */
module Memutils {
  import opened Words

  /** The low "n" bytes of "x", least significant byte first. */
  function Le(x: nat, n: nat): (s: seq<byte>)
    ensures |s| == n
  {
    if n == 0 then [] else [x % 0x100] + Le(x / 0x100, n - 1)
  }

  /** The number that a little-endian byte string denotes. */
  function FromLe(s: seq<byte>): nat
  {
    if s == [] then 0 else s[0] + 0x100 * FromLe(s[1..])
  }

  /** Number of values of "n" bytes. */
  function Span(n: nat): (p: nat)
    ensures p >= 1
  {
    if n == 0 then 1 else 0x100 * Span(n - 1)
  }

  lemma SpanValues()
    ensures Span(1) == 0x100
    ensures Span(2) == 0x1_0000
    ensures Span(4) == 0x1_0000_0000
    ensures Span(8) == 0x1_0000_0000_0000_0000
  {
    assert Span(4) == 0x1_0000_0000;
    assert Span(6) == 0x1_0000_0000_0000;
  }

  lemma {:induction false} FromLeBound(s: seq<byte>)
    ensures FromLe(s) < Span(|s|)
  {
    if s != [] {
      FromLeBound(s[1..]);
    }
  }

  /** Writing a value that fits and reading it back is the identity. */
  lemma {:induction false} ReadWrite(x: nat, n: nat)
    requires x < Span(n)
    ensures FromLe(Le(x, n)) == x
  {
    if n > 0 {
      ReadWrite(x / 0x100, n - 1);
      assert Le(x, n)[1..] == Le(x / 0x100, n - 1);
    }
  }

  /** Reading bytes and writing the value back is the identity. */
  lemma {:induction false} WriteRead(s: seq<byte>)
    ensures Le(FromLe(s), |s|) == s
  {
    if s != [] {
      WriteRead(s[1..]);
      LowByte(s[0], FromLe(s[1..]));
    }
  }

  lemma LowByte(b: byte, v: nat)
    ensures (b + 0x100 * v) % 0x100 == b && (b + 0x100 * v) / 0x100 == v
  {
  }

  lemma LeOfByte(b: byte)
    ensures Le(b, 1) == [b]
  {
    assert Le(b / 0x100, 0) == [];
  }

  function Le2(x: nat): (s: seq<byte>)
    ensures |s| == 2
    ensures s == Le(x, 2)
  {
    assert Le(x, 2) == [x % 0x100] + Le(x / 0x100, 1);
    [x % 0x100, x / 0x100 % 0x100]
  }

  //////////////////////////////////////////////////////////////////////////////
  // Structures
  //////////////////////////////////////////////////////////////////////////////

  /** The fields of a structure, one behind the other. */
  function Concat(parts: seq<seq<byte>>): seq<byte>
  {
    if parts == [] then [] else parts[0] + Concat(parts[1..])
  }

  lemma {:induction false} ConcatSum(a: seq<seq<byte>>, b: seq<seq<byte>>)
    ensures Concat(a + b) == Concat(a) + Concat(b)
  {
    if a == [] {
      assert a + b == b;
    } else {
      assert (a + b)[1..] == a[1..] + b;
      ConcatSum(a[1..], b);
    }
  }

  lemma ConcatPush(a: seq<seq<byte>>, x: seq<byte>)
    ensures Concat(a + [x]) == Concat(a) + x
  {
    ConcatSum(a, [x]);
    assert Concat([x][1..]) == [];
  }

  //////////////////////////////////////////////////////////////////////////////
  // Buffers
  //////////////////////////////////////////////////////////////////////////////

  /** "s" with "t" written over it from position "p" on. */
  function Splice(s: seq<byte>, p: nat, t: seq<byte>): (r: seq<byte>)
    requires p + |t| <= |s|
    ensures |r| == |s|
  {
    s[..p] + t + s[p + |t|..]
  }

  lemma SpliceAt(s: seq<byte>, p: nat, t: seq<byte>, x: nat)
    requires p + |t| <= |s| && x < |s|
    ensures Splice(s, p, t)[x] == if p <= x < p + |t| then t[x - p] else s[x]
  {
  }

  lemma SpliceSlice(s: seq<byte>, p: nat, t: seq<byte>)
    requires p + |t| <= |s|
    ensures Splice(s, p, t)[p..p + |t|] == t
  {
  }

  lemma SameSlice(s: seq<byte>, t: seq<byte>, a: nat, b: nat)
    requires a <= b <= |s| == |t| && forall x :: a <= x < b ==> t[x] == s[x]
    ensures s[a..b] == t[a..b]
  {
  }

  lemma SpliceAbove(s: seq<byte>, p: nat, t: seq<byte>, a: nat, b: nat)
    requires p + |t| <= |s| && a <= b <= p
    ensures Splice(s, p, t)[a..b] == s[a..b]
  {
  }

  lemma SpliceAppend(s: seq<byte>, p: nat, t: seq<byte>, u: seq<byte>)
    requires p + |t| + |u| <= |s|
    ensures Splice(Splice(s, p, t), p + |t|, u) == Splice(s, p, t + u)
  {
  }

  lemma SliceSlice(s: seq<byte>, p: nat, n: nat, a: nat, b: nat)
    requires a <= b <= n && p + n <= |s|
    ensures s[p..p + n][a..b] == s[p + a..p + b]
  {
    var u := s[p..p + n];
    forall i | 0 <= i < b - a
      ensures u[a..b][i] == s[p + a..p + b][i]
    {
      assert u[a + i] == s[p + (a + i)];
    }
  }

  lemma SpliceEmpty(s: seq<byte>, p: nat)
    requires p <= |s|
    ensures Splice(s, p, []) == s
  {
  }

  method WritePu8(buf: array<byte>, p: nat, i: nat)
    requires p + 1 <= buf.Length
    modifies buf
    ensures buf[..] == Splice(old(buf[..]), p, Le(i, 1))
  {
    assert Le(i, 1) == [i % 0x100] + Le(i / 0x100, 0);
    buf[p] := i % 0x100;
  }

  method WritePu16(buf: array<byte>, p: nat, i: nat)
    requires p + 2 <= buf.Length
    modifies buf
    ensures buf[..] == Splice(old(buf[..]), p, Le(i, 2))
  {
    assert Le(i, 2) == [i % 0x100, i / 0x100 % 0x100];
    buf[p] := i % 0x100;
    buf[p + 1] := i / 0x100 % 0x100;
  }

  method WritePu24(buf: array<byte>, p: nat, i: nat)
    requires p + 3 <= buf.Length
    modifies buf
    ensures buf[..] == Splice(old(buf[..]), p, Le(i, 3))
  {
    assert Le(i, 3) == [i % 0x100] + Le2(i / 0x100);
    buf[p] := i % 0x100;
    buf[p + 1] := i / 0x100 % 0x100;
    buf[p + 2] := i / 0x1_0000 % 0x100;
  }

  method WritePu32(buf: array<byte>, p: nat, i: nat)
    requires p + 4 <= buf.Length
    modifies buf
    ensures buf[..] == Splice(old(buf[..]), p, Le(i, 4))
  {
    LeOfFour(i);
    buf[p] := i % 0x100;
    buf[p + 1] := i / 0x100 % 0x100;
    buf[p + 2] := i / 0x1_0000 % 0x100;
    buf[p + 3] := i / 0x100_0000 % 0x100;
  }

  method WritePu64(buf: array<byte>, p: nat, i: nat)
    requires p + 8 <= buf.Length
    modifies buf
    ensures buf[..] == Splice(old(buf[..]), p, Le(i, 8))
  {
    LeOfEight(i);
    buf[p] := i % 0x100;
    buf[p + 1] := i / 0x100 % 0x100;
    buf[p + 2] := i / 0x1_0000 % 0x100;
    buf[p + 3] := i / 0x100_0000 % 0x100;
    buf[p + 4] := i / 0x1_0000_0000 % 0x100;
    buf[p + 5] := i / 0x100_0000_0000 % 0x100;
    buf[p + 6] := i / 0x1_0000_0000_0000 % 0x100;
    buf[p + 7] := i / 0x100_0000_0000_0000 % 0x100;
  }

  //////////////////////////////////////////////////////////////////////////////
  // Writing a record field by field
  //////////////////////////////////////////////////////////////////////////////

  /** Field k goes to "at[k]" and turns the buffer "stages[k]" into the next. */
  datatype Record = Record(parts: seq<seq<byte>>, at: seq<nat>, stages: seq<seq<byte>>)

  ghost predicate Staged(r: Record) {
    && |r.at| == |r.stages| == |r.parts| + 1
    && forall k :: 0 <= k < |r.parts| ==> Stage(r, k)
  }

  ghost predicate Stage(r: Record, k: nat)
    requires |r.at| == |r.stages| == |r.parts| + 1 && k < |r.parts|
  {
    && r.at[k] + |r.parts[k]| == r.at[k + 1] <= |r.stages[k]|
    && r.stages[k + 1] == Splice(r.stages[k], r.at[k], r.parts[k])
  }

  /** "s" is the buffer once the first "k" fields are written; the next one goes to "p". */
  ghost predicate Upto(s: seq<byte>, r: Record, k: nat, p: nat) {
    Staged(r) && k <= |r.parts| && r.at[k] == p && r.stages[k] == s
  }

  /** Writing the fields in turn writes the structure. */
  lemma {:induction false} RecordStages(s: seq<byte>, p: nat, parts: seq<seq<byte>>) returns (r: Record)
    requires p + |Concat(parts)| <= |s|
    ensures r.parts == parts && Upto(s, r, 0, p)
    ensures r.stages[|parts|] == Splice(s, p, Concat(parts))
    decreases parts
  {
    if parts == [] {
      SpliceEmpty(s, p);
      r := Record(parts, [p], [s]);
    } else {
      var t := Splice(s, p, parts[0]);
      var tail := RecordStages(t, p + |parts[0]|, parts[1..]);
      r := Record(parts, [p] + tail.at, [s] + tail.stages);
      SpliceAppend(s, p, parts[0], Concat(parts[1..]));
      StagesPush(s, p, parts, tail, r);
    }
  }

  lemma StagesPush(s: seq<byte>, p: nat, parts: seq<seq<byte>>, tail: Record, r: Record)
    requires parts != [] && p + |parts[0]| <= |s| && tail.parts == parts[1..]
    requires Upto(Splice(s, p, parts[0]), tail, 0, p + |parts[0]|)
    requires r == Record(parts, [p] + tail.at, [s] + tail.stages)
    ensures Upto(s, r, 0, p)
  {
    forall k | 0 <= k < |parts|
      ensures Stage(r, k)
    {
      if k > 0 {
        assert Stage(tail, k - 1);
      }
    }
  }

  method PutPu8(buf: array<byte>, p: nat, i: nat, ghost r: Record, ghost k: nat)
    requires Upto(buf[..], r, k, p) && k < |r.parts| && r.parts[k] == Le(i, 1)
    modifies buf
    ensures Upto(buf[..], r, k + 1, p + 1)
  {
    assert Stage(r, k);
    WritePu8(buf, p, i);
  }

  method PutPu16(buf: array<byte>, p: nat, i: nat, ghost r: Record, ghost k: nat)
    requires Upto(buf[..], r, k, p) && k < |r.parts| && r.parts[k] == Le(i, 2)
    modifies buf
    ensures Upto(buf[..], r, k + 1, p + 2)
  {
    assert Stage(r, k);
    WritePu16(buf, p, i);
  }

  method PutPu24(buf: array<byte>, p: nat, i: nat, ghost r: Record, ghost k: nat)
    requires Upto(buf[..], r, k, p) && k < |r.parts| && r.parts[k] == Le(i, 3)
    modifies buf
    ensures Upto(buf[..], r, k + 1, p + 3)
  {
    assert Stage(r, k);
    WritePu24(buf, p, i);
  }

  method PutPu32(buf: array<byte>, p: nat, i: nat, ghost r: Record, ghost k: nat)
    requires Upto(buf[..], r, k, p) && k < |r.parts| && r.parts[k] == Le(i, 4)
    modifies buf
    ensures Upto(buf[..], r, k + 1, p + 4)
  {
    assert Stage(r, k);
    WritePu32(buf, p, i);
  }

  method PutPu64(buf: array<byte>, p: nat, i: nat, ghost r: Record, ghost k: nat)
    requires Upto(buf[..], r, k, p) && k < |r.parts| && r.parts[k] == Le(i, 8)
    modifies buf
    ensures Upto(buf[..], r, k + 1, p + 8)
  {
    assert Stage(r, k);
    WritePu64(buf, p, i);
  }

  lemma DivTwice(i: nat)
    ensures i / 0x100 / 0x100 == i / 0x1_0000 && i / 0x1_0000 / 0x100 == i / 0x100_0000
  {
  }

  lemma LeOfFour(i: nat)
    ensures Le(i, 4) == [i % 0x100, i / 0x100 % 0x100, i / 0x1_0000 % 0x100, i / 0x100_0000 % 0x100]
  {
    DivTwice(i);
    var a, b := i / 0x100, i / 0x1_0000;
    assert Le(b, 2) == [b % 0x100, b / 0x100 % 0x100];
    assert Le(a, 3) == [a % 0x100] + Le(b, 2);
    assert Le(i, 4) == [i % 0x100] + Le(a, 3);
  }

  lemma LeOfEight(i: nat)
    ensures Le(i, 8) ==
            [i % 0x100, i / 0x100 % 0x100, i / 0x1_0000 % 0x100, i / 0x100_0000 % 0x100,
             i / 0x1_0000_0000 % 0x100, i / 0x100_0000_0000 % 0x100,
             i / 0x1_0000_0000_0000 % 0x100, i / 0x100_0000_0000_0000 % 0x100]
  {
    var j := i / 0x1_0000_0000;
    LeOfFour(i);
    LeOfFour(j);
    LeSplit4(i);
    assert j / 0x100 == i / 0x100_0000_0000;
    assert j / 0x1_0000 == i / 0x1_0000_0000_0000;
    assert j / 0x100_0000 == i / 0x100_0000_0000_0000;
    assert Le(i, 8) == Le(i, 4) + Le(j, 4);
  }

  lemma LeSplit4(i: nat)
    ensures Le(i, 8) == Le(i, 4) + Le(i / 0x1_0000_0000, 4)
  {
    var i1, i2, i3, i4 := i / 0x100, i / 0x1_0000, i / 0x100_0000, i / 0x1_0000_0000;
    LeOfFour(i);
    assert i1 / 0x100 == i2 && i2 / 0x100 == i3 && i3 / 0x100 == i4;
    LeStep(i, 7);
    LeStep(i1, 6);
    LeStep(i2, 5);
    LeStep(i3, 4);
  }

  lemma LeStep(i: nat, n: nat)
    ensures Le(i, n + 1) == [i % 0x100] + Le(i / 0x100, n)
  {
  }

  function ReadPu16(buf: array<byte>, p: nat): (r: nat)
    requires p + 2 <= buf.Length
    reads buf
    ensures r == FromLe(buf[p..p + 2])
  {
    assert buf[p..p + 2][1..] == buf[p + 1..p + 2];
    assert buf[p + 1..p + 2][1..] == [];
    var lo: int, hi: int := buf[p], buf[p + 1];
    assert FromLe(buf[p + 1..p + 2]) == hi;
    assert FromLe(buf[p..p + 2]) == lo + 0x100 * FromLe(buf[p + 1..p + 2]);
    lo + 0x100 * hi
  }

  function ReadPu24(buf: array<byte>, p: nat): (r: nat)
    requires p + 3 <= buf.Length
    reads buf
    ensures r == FromLe(buf[p..p + 3])
  {
    assert buf[p..p + 3][1..] == buf[p + 1..p + 3];
    buf[p] + 0x100 * ReadPu16(buf, p + 1)
  }

  function ReadPu32(buf: array<byte>, p: nat): (r: nat)
    requires p + 4 <= buf.Length
    reads buf
    ensures r == FromLe(buf[p..p + 4])
  {
    assert buf[p..p + 4][1..] == buf[p + 1..p + 4];
    buf[p] + 0x100 * ReadPu24(buf, p + 1)
  }

  function ReadPu64(buf: array<byte>, p: nat): (r: nat)
    requires p + 8 <= buf.Length
    reads buf
    ensures r == FromLe(buf[p..p + 8])
  {
    assert buf[p..p + 8][1..] == buf[p + 1..p + 8];
    assert buf[p + 1..p + 8][1..] == buf[p + 2..p + 8];
    assert buf[p + 2..p + 8][1..] == buf[p + 3..p + 8];
    assert buf[p + 3..p + 8][1..] == buf[p + 4..p + 8];
    assert FromLe(buf[p + 3..p + 8]) == buf[p + 3] as int + 0x100 * FromLe(buf[p + 4..p + 8]);
    assert FromLe(buf[p + 2..p + 8]) == buf[p + 2] as int + 0x100 * FromLe(buf[p + 3..p + 8]);
    assert FromLe(buf[p + 1..p + 8]) == buf[p + 1] as int + 0x100 * FromLe(buf[p + 2..p + 8]);
    var b0: int, b1: int, b2: int, b3: int := buf[p], buf[p + 1], buf[p + 2], buf[p + 3];
    b0 + 0x100 * b1 + 0x1_0000 * b2 + 0x100_0000 * b3 + 0x1_0000_0000 * ReadPu32(buf, p + 4)
  }
}
