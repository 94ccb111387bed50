/**
  Partition entries, their overlapping names, and the checksum of a table
  (libs/libpartman/src/gpt.c:186-217, 258-316).
 */
module GptTable {
  import opened Words
  import opened Memutils
  import opened Crc32
  import opened Guids
  import opened GptFormat

  //////////////////////////////////////////////////////////////////////////////
  // Names
  //////////////////////////////////////////////////////////////////////////////

  /**
    The program stores code unit i at byte i of the name, two bytes wide, so
    each unit but the last loses its high byte to the next one.
   */
  function NameBytes(name: seq<u32>): (s: seq<byte>)
    requires |name| == 36
    ensures |s| == 37
  {
    seq(37, i requires 0 <= i < 37 => if i < 36 then name[i] % 0x100 else name[35] / 0x100 % 0x100)
  }

  function NameFromBytes(s: seq<byte>): (name: seq<u32>)
    requires |s| == 37
    ensures |name| == 36
  {
    seq(36, i requires 0 <= i < 36 => Unit(s[i], s[i + 1]))
  }

  function Unit(lo: byte, hi: byte): u32 {
    lo as int + 0x100 * hi as int
  }

  /** Every high byte is the next low byte: what survives the overlap. */
  predicate Chained(name: seq<u32>)
    requires |name| == 36
  {
    && (forall i :: 0 <= i < 36 ==> name[i] < 0x1_0000)
    && (forall i :: 0 <= i < 35 ==> name[i] / 0x100 == name[i + 1] % 0x100)
  }

  /** The byte that ends up in the high half of code unit "i". */
  function HighByte(name: seq<u32>, i: nat): byte
    requires |name| == 36 && i < 36
  {
    if i < 35 then name[i + 1] % 0x100 else name[35] / 0x100 % 0x100
  }

  lemma UnitSurvivesIff(x: u32, hi: byte)
    ensures Unit(x % 0x100, hi) == x <==> x / 0x100 == hi
  {
  }

  lemma NameBack(name: seq<u32>, i: nat)
    requires |name| == 36 && i < 36
    ensures NameFromBytes(NameBytes(name))[i] == Unit(name[i] % 0x100, HighByte(name, i))
  {
  }

  /** A name survives being written and read exactly if it is chained. */
  lemma NameReadWriteIff(name: seq<u32>)
    requires |name| == 36
    ensures NameFromBytes(NameBytes(name)) == name <==> Chained(name)
  {
    var back := NameFromBytes(NameBytes(name));
    forall i | 0 <= i < 36
      ensures back[i] == name[i] <==> name[i] / 0x100 == HighByte(name, i)
    {
      NameBack(name, i);
      UnitSurvivesIff(name[i], HighByte(name, i));
    }
    assert back == name <==> forall i :: 0 <= i < 36 ==> name[i] / 0x100 == HighByte(name, i);
  }

  lemma NameReadIsChained(s: seq<byte>)
    requires |s| == 37
    ensures Chained(NameFromBytes(s))
    ensures NameBytes(NameFromBytes(s)) == s
  {
    var name := NameFromBytes(s);
    forall i | 0 <= i < 36
      ensures name[i] % 0x100 == s[i] && name[i] / 0x100 == s[i + 1] && name[i] < 0x1_0000
    {
      UnitHalves(s[i], s[i + 1]);
    }
    var t := NameBytes(name);
    forall i | 0 <= i < 37
      ensures t[i] == s[i]
    {
      if i == 36 {
        assert name[35] / 0x100 == s[36];
      }
    }
  }

  /** The name as the checksum sees it: two bytes for every code unit. */
  function NameStream(name: seq<u32>): (t: seq<byte>)
    ensures |t| == 2 * |name|
  {
    if name == [] then [] else NameStream(name[..|name| - 1]) + Le2(name[|name| - 1])
  }

  lemma {:induction false} NameStreamAt(name: seq<u32>, i: nat)
    requires i < |name|
    ensures NameStream(name)[2 * i] == name[i] % 0x100 && NameStream(name)[2 * i + 1] == name[i] / 0x100 % 0x100
  {
    var n := |name| - 1;
    var t := NameStream(name[..n]);
    assert NameStream(name) == t + Le2(name[n]) && |t| == 2 * n;
    if i < n {
      NameStreamAt(name[..n], i);
    }
  }

  //////////////////////////////////////////////////////////////////////////////
  // Entries
  //////////////////////////////////////////////////////////////////////////////

  function EntFixed(e: Ent): (s: seq<byte>)
    ensures |s| == 56
  {
    GuidBytes(e.typeGuid) + (GuidBytes(e.uniqueGuid) + (Le(e.startLba, 8) + (Le(e.endLba, 8) + Le(e.attr, 8))))
  }

  /** The 93 bytes of an entry that the program writes. */
  function EntBytes(e: Ent): (s: seq<byte>)
    ensures |s| == ENT_SZ
  {
    EntFixed(e) + NameBytes(e.name)
  }

  /** The 128 bytes of an entry that enter the checksum. */
  function EntStream(e: Ent): (s: seq<byte>)
    ensures |s| == 128
  {
    EntFixed(e) + NameStream(e.name)
  }

  function EntFromBytes(s: seq<byte>): Ent
    requires |s| == ENT_SZ
  {
    EntFields(GuidFromBytes(s[0..16]), GuidFromBytes(s[16..32]), U64At(s, 32), U64At(s, 40), U64At(s, 48),
              NameFromBytes(s[56..93]))
  }

  lemma EntFixedSlices(e: Ent)
    ensures var s := EntFixed(e);
            && s[0..16] == GuidBytes(e.typeGuid) && s[16..32] == GuidBytes(e.uniqueGuid)
            && s[32..40] == Le(e.startLba, 8) && s[40..48] == Le(e.endLba, 8) && s[48..56] == Le(e.attr, 8)
  {
  }

  /** The five fields in front of the name. */
  lemma EntFieldsAt(s: seq<byte>, e: Ent, f: seq<byte>)
    requires |s| == ENT_SZ && f == EntFixed(e) && s[0..56] == f
    ensures s[0..16] == GuidBytes(e.typeGuid) && s[16..32] == GuidBytes(e.uniqueGuid)
    ensures U64At(s, 32) == e.startLba && U64At(s, 40) == e.endLba && U64At(s, 48) == e.attr
  {
    EntFixedSlices(e);
    FieldAt(s, 0, 56, f, 0, 16, GuidBytes(e.typeGuid));
    FieldAt(s, 0, 56, f, 16, 32, GuidBytes(e.uniqueGuid));
    FieldU64(s, 0, 56, f, 32, e.startLba);
    FieldU64(s, 0, 56, f, 40, e.endLba);
    FieldU64(s, 0, 56, f, 48, e.attr);
  }

  /** All of an entry but its name survives being written and read. */
  lemma EntReadFixed(s: seq<byte>, e: Ent)
    requires |s| == ENT_SZ && s[0..56] == EntFixed(e)
    ensures EntFromBytes(s).(name := e.name) == e
  {
    EntFieldsAt(s, e, EntFixed(e));
    GuidReadWrite(e.typeGuid);
    GuidReadWrite(e.uniqueGuid);
  }

  /** An entry survives being written and read exactly if its name is chained. */
  lemma EntReadWriteIff(e: Ent)
    ensures EntFromBytes(EntBytes(e)) == e <==> Chained(e.name)
  {
    var s := EntBytes(e);
    assert s[0..56] == EntFixed(e);
    assert s[56..93] == NameBytes(e.name);
    EntReadFixed(s, e);
    NameReadWriteIff(e.name);
  }

  lemma EntFixedSplit(s: seq<byte>)
    requires |s| == ENT_SZ
    ensures s[0..56] == s[0..16] + (s[16..32] + (s[32..40] + (s[40..48] + s[48..56])))
  {
  }

  lemma EntWriteFixed(s: seq<byte>)
    requires |s| == ENT_SZ
    ensures EntFixed(EntFromBytes(s)) == s[0..56]
  {
    var e := EntFromBytes(s);
    var g, u := GuidBytes(e.typeGuid), GuidBytes(e.uniqueGuid);
    assert g == s[0..16] by {
      GuidWriteRead(s[0..16]);
    }
    assert u == s[16..32] by {
      GuidWriteRead(s[16..32]);
    }
    LeU64At(s, 32);
    LeU64At(s, 40);
    LeU64At(s, 48);
    EntFixedSplit(s);
  }

  /** An entry that was read has a chained name and writes the same bytes back. */
  lemma EntWriteRead(s: seq<byte>)
    requires |s| == ENT_SZ
    ensures EntBytes(EntFromBytes(s)) == s
    ensures Chained(EntFromBytes(s).name)
  {
    EntWriteFixed(s);
    NameReadIsChained(s[56..93]);
    assert s == s[0..56] + s[56..93];
  }

  /** Which stored byte the checksum stream of an entry takes at position "j". */
  function Source(j: nat): nat {
    if j < 56 then j else 56 + (j - 55) / 2
  }

  lemma NameStreamOfBytes(s: seq<byte>, k: nat)
    requires |s| == 37 && k < 72
    ensures NameStream(NameFromBytes(s))[k] == s[(k + 1) / 2]
  {
    HalfUp(k);
    NameStreamHalf(s, k / 2, k % 2);
  }

  lemma NameStreamHalf(s: seq<byte>, i: nat, odd: nat)
    requires |s| == 37 && i < 36 && odd <= 1
    ensures NameStream(NameFromBytes(s))[2 * i + odd] == s[i + odd]
  {
    NameStreamUnit(NameFromBytes(s), i, odd, s[i], s[i + 1]);
  }

  lemma NameStreamUnit(name: seq<u32>, i: nat, odd: nat, lo: byte, hi: byte)
    requires i < |name| && odd <= 1 && name[i] == Unit(lo, hi)
    ensures NameStream(name)[2 * i + odd] == if odd == 0 then lo else hi
  {
    UnitHalves(lo, hi);
    NameStreamAt(name, i);
  }

  lemma HalfUp(k: nat)
    ensures (k + 1) / 2 == k / 2 + k % 2 && k == 2 * (k / 2) + k % 2
  {
  }

  lemma UnitHalves(lo: byte, hi: byte)
    ensures Unit(lo, hi) % 0x100 == lo && Unit(lo, hi) / 0x100 == hi && Unit(lo, hi) < 0x1_0000
  {
  }

  /** The checksum stream of an entry that was read, in terms of the stored bytes. */
  lemma StreamOfBytes(s: seq<byte>, j: nat)
    requires |s| == ENT_SZ && j < 128
    ensures Source(j) < ENT_SZ
    ensures EntStream(EntFromBytes(s))[j] == s[Source(j)]
  {
    var e := EntFromBytes(s);
    var f := EntFixed(e);
    EntWriteFixed(s);
    if j < 56 {
      assert EntStream(e)[j] == f[j] == s[0..56][j];
    } else {
      NameStreamOfBytes(s[56..93], j - 56);
      assert EntStream(e)[j] == NameStream(e.name)[j - 56];
    }
  }

  //////////////////////////////////////////////////////////////////////////////
  // Tables
  //////////////////////////////////////////////////////////////////////////////

  function TableStream(table: seq<Ent>): (s: seq<byte>)
    ensures |s| == 128 * |table|
  {
    if table == [] then [] else TableStream(table[..|table| - 1]) + EntStream(table[|table| - 1])
  }

  function TableCrc(table: seq<Ent>): u32 {
    Checksum(TableStream(table))
  }

  lemma {:induction false} TableStreamAt(table: seq<Ent>, i: nat, j: nat)
    requires i < |table| && j < 128
    ensures TableStream(table)[128 * i + j] == EntStream(table[i])[j]
  {
    var n := |table| - 1;
    if i < n {
      TableStreamAt(table[..n], i, j);
      assert TableStream(table)[128 * i + j] == TableStream(table[..n])[128 * i + j];
    }
  }

  lemma TableStreamTake(table: seq<Ent>, i: nat)
    requires i < |table|
    ensures TableStream(table[..i + 1]) == TableStream(table[..i]) + EntStream(table[i])
  {
    assert table[..i + 1][..i] == table[..i];
  }

  /** All entries of a table of "n" entries, "sz" bytes apart from "p" on, lie in "len" bytes. */
  predicate TableFits(len: nat, p: nat, n: nat, sz: nat) {
    n == 0 || p + (n - 1) * sz + ENT_SZ <= len
  }

  lemma EntryFits(len: nat, p: nat, n: nat, sz: nat, i: nat)
    requires TableFits(len, p, n, sz) && i < n
    ensures p + i * sz + ENT_SZ <= len
  {
    MulMono(sz, i, n - 1);
  }

  /** The bytes of entry "i". */
  function EntryAt(s: seq<byte>, p: nat, n: nat, sz: nat, i: nat): (e: seq<byte>)
    requires TableFits(|s|, p, n, sz) && i < n
    ensures |e| == ENT_SZ
  {
    EntryFits(|s|, p, n, sz, i);
    s[p + i * sz..p + i * sz + ENT_SZ]
  }

  /** The entries that a table in "s" holds. */
  function TableFromBytes(s: seq<byte>, p: nat, n: nat, sz: nat): (table: seq<Ent>)
    requires TableFits(|s|, p, n, sz)
    ensures |table| == n
    ensures forall i :: 0 <= i < n ==> table[i] == EntFromBytes(EntryAt(s, p, n, sz, i))
  {
    seq(n, i requires 0 <= i < n => EntFromBytes(EntryAt(s, p, n, sz, i)))
  }

  lemma TableFitsTake(len: nat, p: nat, m: nat, n: nat, sz: nat)
    requires TableFits(len, p, n, sz) && m <= n
    ensures TableFits(len, p, m, sz)
  {
    if m > 0 {
      EntryFits(len, p, n, sz, m - 1);
    }
  }

  /** "s" with the entries of "table" written "sz" bytes apart from "p" on. */
  function TableSplice(s: seq<byte>, p: nat, table: seq<Ent>, sz: nat): (t: seq<byte>)
    requires TableFits(|s|, p, |table|, sz)
    ensures |t| == |s|
    decreases |table|
  {
    if table == [] then s
    else
      var n := |table| - 1;
      EntryFits(|s|, p, n + 1, sz, n);
      TableFitsTake(|s|, p, n, n + 1, sz);
      Splice(TableSplice(s, p, table[..n], sz), p + n * sz, EntBytes(table[n]))
  }

  /** The last step of writing a table, at position "q". */
  lemma TableSpliceLast(s: seq<byte>, p: nat, table: seq<Ent>, sz: nat)
    returns (before: seq<byte>, q: nat, e: seq<byte>)
    requires TableFits(|s|, p, |table|, sz) && table != []
    ensures p <= q == p + (|table| - 1) * sz && q + sz == p + |table| * sz
    ensures q + ENT_SZ <= |s| == |before| && |e| == ENT_SZ && e == EntBytes(table[|table| - 1])
    ensures TableFits(|s|, p, |table| - 1, sz) && before == TableSplice(s, p, table[..|table| - 1], sz)
    ensures TableSplice(s, p, table, sz) == Splice(before, q, e)
  {
    var n := |table| - 1;
    TableFitsTake(|s|, p, n, n + 1, sz);
    before := TableSplice(s, p, table[..n], sz);
    q := p + n * sz;
    e := EntBytes(table[n]);
    assert (n + 1) * sz == n * sz + sz;
    MulMono(sz, 0, n);
  }

  lemma TableSpliceStep(s: seq<byte>, p: nat, table: seq<Ent>, i: nat, sz: nat)
    requires i < |table| && TableFits(|s|, p, i + 1, sz)
    ensures p + i * sz + ENT_SZ <= |s| && TableFits(|s|, p, i, sz)
    ensures TableSplice(s, p, table[..i + 1], sz)
            == Splice(TableSplice(s, p, table[..i], sz), p + i * sz, EntBytes(table[i]))
  {
    var front := table[..i + 1];
    var before, q, e := TableSpliceLast(s, p, front, sz);
    assert |front| - 1 == i && front[i] == table[i];
    assert front[..i] == table[..i];
  }

  /** Bytes before and behind the table stay. */
  lemma {:induction false} TableSpliceFrame(s: seq<byte>, p: nat, table: seq<Ent>, sz: nat, x: nat)
    requires TableFits(|s|, p, |table|, sz) && x < |s| && sz >= ENT_SZ
    requires x < p || x >= p + |table| * sz
    ensures TableSplice(s, p, table, sz)[x] == s[x]
    decreases |table|
  {
    if table != [] {
      var before, q, e := TableSpliceLast(s, p, table, sz);
      TableSpliceFrame(s, p, table[..|table| - 1], sz, x);
      SpliceAt(before, q, e, x);
    }
  }

  /** Where entry "i" of a table lies. */
  lemma EntryBelow(p: nat, n: nat, sz: nat, i: nat, q: nat)
    requires i < n && q == p + n * sz && sz >= ENT_SZ
    ensures p + i * sz + ENT_SZ <= q
  {
    MulMono(sz, i + 1, n);
    assert (i + 1) * sz == i * sz + sz;
  }

  /** The table that was written is there: entry "i" at position "q". */
  lemma {:induction false} TableSpliceEntry(s: seq<byte>, p: nat, table: seq<Ent>, sz: nat, i: nat, q: nat)
    requires TableFits(|s|, p, |table|, sz) && i < |table| && sz >= ENT_SZ && q == p + i * sz
    ensures q + ENT_SZ <= |s| && TableSplice(s, p, table, sz)[q..q + ENT_SZ] == EntBytes(table[i])
    decreases |table|
  {
    var n := |table| - 1;
    var before, last, e := TableSpliceLast(s, p, table, sz);
    if i < n {
      var front := table[..n];
      assert front[i] == table[i];
      TableSpliceEntry(s, p, front, sz, i, q);
      EntryBelow(p, n, sz, i, last);
      SpliceAbove(before, last, e, q, q + ENT_SZ);
    } else {
      SpliceSlice(before, last, e);
    }
  }
}
