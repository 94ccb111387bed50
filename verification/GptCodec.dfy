/** Reading, writing and checksumming GPT structures in buffers (libs/libpartman/src/gpt.c:186-378). */
module GptCodec {
  import opened Words
  import opened Memutils
  import opened Crc32
  import opened Guids
  import opened GptFormat
  import opened GptTable

  //////////////////////////////////////////////////////////////////////////////
  // Header
  //////////////////////////////////////////////////////////////////////////////

  function HdrParts(h: Hdr): (parts: seq<seq<byte>>)
    ensures HdrFieldsMatch(parts, h)
  {
    [GPT_SIG, Le(h.rev, 4), Le(h.hdrSz, 4), Le(h.hdrCrc, 4), Le(0, 4)]
    + ([Le(h.myLba, 8), Le(h.altLba, 8), Le(h.firstUsable, 8), Le(h.lastUsable, 8)]
       + [GuidBytes(h.diskGuid), Le(h.tableLba, 8), Le(h.entryCnt, 4), Le(h.entrySz, 4), Le(h.tableCrc, 4)])
  }

  ghost predicate HdrFieldsMatch(parts: seq<seq<byte>>, h: Hdr) {
    && |parts| == 14
    && parts[0] == GPT_SIG && parts[1] == Le(h.rev, 4) && parts[2] == Le(h.hdrSz, 4)
    && parts[3] == Le(h.hdrCrc, 4) && parts[4] == Le(0, 4)
    && parts[5] == Le(h.myLba, 8) && parts[6] == Le(h.altLba, 8)
    && parts[7] == Le(h.firstUsable, 8) && parts[8] == Le(h.lastUsable, 8)
    && parts[9] == GuidBytes(h.diskGuid)
    && parts[10] == Le(h.tableLba, 8) && parts[11] == Le(h.entryCnt, 4)
    && parts[12] == Le(h.entrySz, 4) && parts[13] == Le(h.tableCrc, 4)
  }

  lemma ConcatFour(a: seq<byte>, b: seq<byte>, c: seq<byte>, d: seq<byte>)
    ensures Concat([a, b, c, d]) == a + (b + (c + d))
  {
    ConcatPush([a, b, c], d);
    ConcatPush([a, b], c);
    ConcatPush([a], b);
    ConcatPush([], a);
    assert [a, b, c] + [d] == [a, b, c, d] && [a, b] + [c] == [a, b, c] && [a] + [b] == [a, b] && [] + [a] == [a];
  }

  lemma ConcatFive(a: seq<byte>, b: seq<byte>, c: seq<byte>, d: seq<byte>, e: seq<byte>)
    ensures Concat([a, b, c, d, e]) == a + (b + (c + (d + e)))
  {
    ConcatFour(a, b, c, d);
    ConcatPush([a, b, c, d], e);
    assert [a, b, c, d] + [e] == [a, b, c, d, e];
  }

  /** A header is stored as a structure of fourteen fields. */
  lemma HdrStructure(h: Hdr)
    ensures Concat(HdrParts(h)) == HdrBytes(h)
  {
    ConcatFive(GPT_SIG, Le(h.rev, 4), Le(h.hdrSz, 4), Le(h.hdrCrc, 4), Le(0, 4));
    ConcatFour(Le(h.myLba, 8), Le(h.altLba, 8), Le(h.firstUsable, 8), Le(h.lastUsable, 8));
    ConcatFive(GuidBytes(h.diskGuid), Le(h.tableLba, 8), Le(h.entryCnt, 4), Le(h.entrySz, 4), Le(h.tableCrc, 4));
    var a := [GPT_SIG, Le(h.rev, 4), Le(h.hdrSz, 4), Le(h.hdrCrc, 4), Le(0, 4)];
    var b := [Le(h.myLba, 8), Le(h.altLba, 8), Le(h.firstUsable, 8), Le(h.lastUsable, 8)];
    var c := [GuidBytes(h.diskGuid), Le(h.tableLba, 8), Le(h.entryCnt, 4), Le(h.entrySz, 4), Le(h.tableCrc, 4)];
    ConcatSum(a, b + c);
    ConcatSum(b, c);
  }

  lemma RecordOfHdr(s: seq<byte>, p: nat, h: Hdr) returns (r: Record)
    requires p + HDR_SZ <= |s|
    ensures Upto(s, r, 0, p) && HdrFieldsMatch(r.parts, h)
    ensures r.stages[14] == Splice(s, p, HdrBytes(h))
  {
    HdrStructure(h);
    r := RecordStages(s, p, HdrParts(h));
  }

  lemma FeedOfHdr(c: u32, h: Hdr) returns (f: Feed)
    ensures Fed(c, f, 0) && HdrFieldsMatch(f.parts, h)
    ensures f.rests[14] == DivideBytes(c, HdrBytes(h))
  {
    HdrStructure(h);
    f := FeedStages(c, HdrParts(h));
  }

  lemma SplicePush(s: seq<byte>, p: nat, sig: seq<byte>, i: nat)
    requires p + |sig| <= |s| && i < |sig|
    ensures Splice(Splice(s, p, sig[..i]), p + i, [sig[i]]) == Splice(s, p, sig[..i + 1])
  {
    SpliceAppend(s, p, sig[..i], [sig[i]]);
    assert sig[..i + 1] == sig[..i] + [sig[i]];
  }

  /** The signature loops, for any signature. */
  method WriteBytes(buf: array<byte>, p: nat, sig: seq<byte>)
    requires p + |sig| <= buf.Length
    modifies buf
    ensures buf[..] == Splice(old(buf[..]), p, sig)
  {
    ghost var s := buf[..];
    SpliceEmpty(s, p);
    for i := 0 to |sig|
      invariant buf[..] == Splice(s, p, sig[..i])
    {
      SplicePush(s, p, sig, i);
      LeOfByte(sig[i]);
      WritePu8(buf, p + i, sig[i]);
    }
    assert sig[..|sig|] == sig;
  }

  method HdrWrite(buf: array<byte>, p: nat, h: Hdr)
    requires p + HDR_SZ <= buf.Length
    modifies buf
    ensures buf[..] == Splice(old(buf[..]), p, HdrBytes(h))
  {
    ghost var r := RecordOfHdr(buf[..], p, h);
    assert Stage(r, 0);
    WriteBytes(buf, p, GPT_SIG);
    PutPu32(buf, p + 8, h.rev, r, 1);
    PutPu32(buf, p + 12, h.hdrSz, r, 2);
    PutPu32(buf, p + 16, h.hdrCrc, r, 3);
    PutPu32(buf, p + 20, 0, r, 4);
    PutPu64(buf, p + 24, h.myLba, r, 5);
    PutPu64(buf, p + 32, h.altLba, r, 6);
    PutPu64(buf, p + 40, h.firstUsable, r, 7);
    PutPu64(buf, p + 48, h.lastUsable, r, 8);
    assert Stage(r, 9);
    GuidWrite(buf, p + 56, h.diskGuid);
    PutPu64(buf, p + 72, h.tableLba, r, 10);
    PutPu32(buf, p + 80, h.entryCnt, r, 11);
    PutPu32(buf, p + 84, h.entrySz, r, 12);
    PutPu32(buf, p + 88, h.tableCrc, r, 13);
  }

  /** The 32-bit field at offset "o" of a structure of "n" bytes at "p". */
  function ReadU32(buf: array<byte>, p: nat, n: nat, o: nat): (r: u32)
    requires p + n <= buf.Length && o + 4 <= n
    reads buf
    ensures r == U32At(buf[p..p + n], o)
  {
    SliceSlice(buf[..], p, n, o, o + 4);
    assert buf[p..p + n] == buf[..][p..p + n];
    assert buf[p + o..p + o + 4] == buf[..][p + o..p + o + 4];
    ReadPu32(buf, p + o)
  }

  function ReadU64(buf: array<byte>, p: nat, n: nat, o: nat): (r: u64)
    requires p + n <= buf.Length && o + 8 <= n
    reads buf
    ensures r == U64At(buf[p..p + n], o)
  {
    SliceSlice(buf[..], p, n, o, o + 8);
    assert buf[p..p + n] == buf[..][p..p + n];
    assert buf[p + o..p + o + 8] == buf[..][p + o..p + o + 8];
    ReadPu64(buf, p + o)
  }

  method HdrRead(buf: array<byte>, p: nat) returns (h: Hdr)
    requires p + HDR_SZ <= buf.Length
    ensures h == HdrFromBytes(buf[p..p + HDR_SZ])
  {
    var disk := GuidRead(buf, p + 56);
    SliceSlice(buf[..], p, HDR_SZ, 56, 72);
    assert buf[p..p + HDR_SZ] == buf[..][p..p + HDR_SZ];
    assert buf[p + 56..p + 72] == buf[..][p + 56..p + 72];
    h := Hdr(ReadU32(buf, p, HDR_SZ, 8), ReadU32(buf, p, HDR_SZ, 12), ReadU32(buf, p, HDR_SZ, 16),
             ReadU64(buf, p, HDR_SZ, 24), ReadU64(buf, p, HDR_SZ, 32),
             ReadU64(buf, p, HDR_SZ, 40), ReadU64(buf, p, HDR_SZ, 48), disk,
             ReadU64(buf, p, HDR_SZ, 72), ReadU32(buf, p, HDR_SZ, 80),
             ReadU32(buf, p, HDR_SZ, 84), ReadU32(buf, p, HDR_SZ, 88));
  }

  method FeedBytes(t: Table, crc: u32, sig: seq<byte>) returns (r: u32)
    requires t.Valid()
    modifies t.entries
    ensures t.Valid() && r == DivideBytes(crc, sig)
  {
    r := crc;
    for i := 0 to |sig|
      invariant t.Valid() && r == DivideBytes(crc, sig[..i])
    {
      r := t.Compute8(r, sig[i]);
      DivideConcat(crc, sig[..i], [sig[i]]);
      assert sig[..i + 1] == sig[..i] + [sig[i]];
    }
    assert sig[..|sig|] == sig;
  }

  /** Feeds the fields of a header whose checksum field counts as zero. */
  method FeedHdr(t: Table, start: u32, h: Hdr) returns (crc: u32)
    requires t.Valid() && h.hdrCrc == 0
    modifies t.entries
    ensures t.Valid() && crc == DivideBytes(start, HdrBytes(h))
  {
    ghost var f := FeedOfHdr(start, h);
    crc := FeedHdrHead(t, start, h, f);
    crc := FeedHdrLbas(t, crc, h, f);
    crc := FeedHdrTail(t, crc, h, f);
  }

  method FeedHdrHead(t: Table, start: u32, h: Hdr, ghost f: Feed) returns (crc: u32)
    requires t.Valid() && h.hdrCrc == 0 && HdrFieldsMatch(f.parts, h) && Fed(start, f, 0)
    modifies t.entries
    ensures t.Valid() && Fed(crc, f, 5)
  {
    crc := FeedHdrSig(t, start, f);
    crc := Feed32(t, crc, h.rev, f, 1);
    crc := Feed32(t, crc, h.hdrSz, f, 2);
    crc := Feed32(t, crc, 0, f, 3);
    crc := Feed32(t, crc, 0, f, 4);
  }

  method FeedHdrSig(t: Table, start: u32, ghost f: Feed) returns (crc: u32)
    requires t.Valid() && Fed(start, f, 0) && |f.parts| > 0 && f.parts[0] == GPT_SIG
    modifies t.entries
    ensures t.Valid() && Fed(crc, f, 1)
  {
    assert Fold(f, 0);
    crc := FeedBytes(t, start, GPT_SIG);
  }

  method FeedHdrLbas(t: Table, start: u32, h: Hdr, ghost f: Feed) returns (crc: u32)
    requires t.Valid() && HdrFieldsMatch(f.parts, h) && Fed(start, f, 5)
    modifies t.entries
    ensures t.Valid() && Fed(crc, f, 9)
  {
    crc := Feed64(t, start, h.myLba, f, 5);
    crc := Feed64(t, crc, h.altLba, f, 6);
    crc := Feed64(t, crc, h.firstUsable, f, 7);
    crc := Feed64(t, crc, h.lastUsable, f, 8);
  }

  method FeedHdrTail(t: Table, start: u32, h: Hdr, ghost f: Feed) returns (crc: u32)
    requires t.Valid() && HdrFieldsMatch(f.parts, h) && Fed(start, f, 9)
    modifies t.entries
    ensures t.Valid() && Fed(crc, f, 14)
  {
    assert Fold(f, 9);
    crc := GuidCrcCompute(t, start, h.diskGuid);
    crc := Feed64(t, crc, h.tableLba, f, 10);
    crc := Feed32(t, crc, h.entryCnt, f, 11);
    crc := Feed32(t, crc, h.entrySz, f, 12);
    crc := Feed32(t, crc, h.tableCrc, f, 13);
  }

  /** The checksum of a header, fed field by field. */
  method HdrCrcCreate(t: Table, h: Hdr) returns (crc: u32)
    requires t.Valid()
    modifies t.entries
    ensures t.Valid() && crc == HdrCrc(h)
  {
    var start := ONES;
    crc := FeedHdr(t, start, h.(hdrCrc := 0));
    crc := Xor32(crc, ONES);
  }

  //////////////////////////////////////////////////////////////////////////////
  // Entries
  //////////////////////////////////////////////////////////////////////////////

  function EntParts(e: Ent): (parts: seq<seq<byte>>)
    ensures EntFieldsMatch(parts, e)
  {
    [GuidBytes(e.typeGuid), GuidBytes(e.uniqueGuid), Le(e.startLba, 8), Le(e.endLba, 8), Le(e.attr, 8)]
  }

  ghost predicate EntFieldsMatch(parts: seq<seq<byte>>, e: Ent) {
    && |parts| == 5
    && parts[0] == GuidBytes(e.typeGuid) && parts[1] == GuidBytes(e.uniqueGuid)
    && parts[2] == Le(e.startLba, 8) && parts[3] == Le(e.endLba, 8) && parts[4] == Le(e.attr, 8)
  }

  lemma EntStructure(e: Ent)
    ensures Concat(EntParts(e)) == EntFixed(e)
  {
    ConcatFive(GuidBytes(e.typeGuid), GuidBytes(e.uniqueGuid), Le(e.startLba, 8), Le(e.endLba, 8), Le(e.attr, 8));
  }

  lemma RecordOfEnt(s: seq<byte>, p: nat, e: Ent) returns (r: Record)
    requires p + 56 <= |s|
    ensures Upto(s, r, 0, p) && EntFieldsMatch(r.parts, e)
    ensures r.stages[5] == Splice(s, p, EntFixed(e))
  {
    EntStructure(e);
    r := RecordStages(s, p, EntParts(e));
  }

  lemma FeedOfEnt(c: u32, e: Ent) returns (f: Feed)
    ensures Fed(c, f, 0) && EntFieldsMatch(f.parts, e)
    ensures f.rests[5] == DivideBytes(c, EntFixed(e))
  {
    EntStructure(e);
    f := FeedStages(c, EntParts(e));
  }

  method EntWriteFixed(buf: array<byte>, p: nat, e: Ent)
    requires p + 56 <= buf.Length
    modifies buf
    ensures buf[..] == Splice(old(buf[..]), p, EntFixed(e))
  {
    ghost var r := RecordOfEnt(buf[..], p, e);
    assert Stage(r, 0);
    GuidWrite(buf, p, e.typeGuid);
    assert Stage(r, 1);
    GuidWrite(buf, p + 16, e.uniqueGuid);
    PutPu64(buf, p + 32, e.startLba, r, 2);
    PutPu64(buf, p + 40, e.endLba, r, 3);
    PutPu64(buf, p + 48, e.attr, r, 4);
  }

  /** The name bytes once "i" code units are written, each over the high byte of the one before. */
  function NamePrefix(name: seq<u32>, i: nat): (s: seq<byte>)
    requires |name| == 36 && i <= 36
    ensures |s| == if i == 0 then 0 else i + 1
  {
    if i == 0 then []
    else seq(i + 1, j requires 0 <= j <= i => if j < i then name[j] % 0x100 else name[i - 1] / 0x100 % 0x100)
  }

  /** A write that starts inside the one before and reaches beyond its end. */
  lemma SpliceOver(s: seq<byte>, p: nat, t: seq<byte>, i: nat, u: seq<byte>)
    requires i <= |t| <= i + |u| && p + i + |u| <= |s|
    ensures Splice(Splice(s, p, t), p + i, u) == Splice(s, p, t[..i] + u)
  {
  }

  lemma NameStep(s: seq<byte>, p: nat, name: seq<u32>, i: nat)
    requires |name| == 36 && i < 36 && p + 37 <= |s|
    ensures Splice(Splice(s, p, NamePrefix(name, i)), p + i, Le(name[i], 2)) == Splice(s, p, NamePrefix(name, i + 1))
  {
    SpliceOver(s, p, NamePrefix(name, i), i, Le2(name[i]));
    NameGrows(name, i);
  }

  lemma NameGrows(name: seq<u32>, i: nat)
    requires |name| == 36 && i < 36
    ensures NamePrefix(name, i + 1) == NamePrefix(name, i)[..i] + Le2(name[i])
  {
  }

  lemma NameWhole(name: seq<u32>)
    requires |name| == 36
    ensures NamePrefix(name, 36) == NameBytes(name)
  {
  }

  method NameWrite(buf: array<byte>, p: nat, name: seq<u32>)
    requires |name| == 36 && p + 37 <= buf.Length
    modifies buf
    ensures buf[..] == Splice(old(buf[..]), p, NameBytes(name))
  {
    ghost var s := buf[..];
    SpliceEmpty(s, p);
    for i := 0 to 36
      invariant buf[..] == Splice(s, p, NamePrefix(name, i))
    {
      WritePu16(buf, p + i, name[i]);
      NameStep(s, p, name, i);
    }
    NameWhole(name);
  }

  method EntWrite(buf: array<byte>, p: nat, e: Ent)
    requires p + ENT_SZ <= buf.Length
    modifies buf
    ensures buf[..] == Splice(old(buf[..]), p, EntBytes(e))
  {
    ghost var s := buf[..];
    EntWriteFixed(buf, p, e);
    NameWrite(buf, p + 56, e.name);
    SpliceAppend(s, p, EntFixed(e), NameBytes(e.name));
  }

  method EntRead(buf: array<byte>, p: nat) returns (e: Ent)
    requires p + ENT_SZ <= buf.Length
    ensures e == EntFromBytes(buf[p..p + ENT_SZ])
  {
    ghost var s := buf[p..p + ENT_SZ];
    var typeGuid := GuidRead(buf, p);
    var uniqueGuid := GuidRead(buf, p + 16);
    SliceSlice(buf[..], p, ENT_SZ, 0, 16);
    SliceSlice(buf[..], p, ENT_SZ, 16, 32);
    assert s == buf[..][p..p + ENT_SZ];
    assert buf[p..p + 16] == buf[..][p..p + 16] && buf[p + 16..p + 32] == buf[..][p + 16..p + 32];
    var name: seq<u32> := [];
    for i := 0 to 36
      invariant |name| == i && forall j :: 0 <= j < i ==> name[j] == Unit(s[56 + j], s[57 + j])
    {
      name := name + [Unit(buf[p + 56 + i], buf[p + 57 + i])];
    }
    assert name == NameFromBytes(s[56..93]);
    e := EntFields(typeGuid, uniqueGuid, ReadU64(buf, p, ENT_SZ, 32), ReadU64(buf, p, ENT_SZ, 40),
                   ReadU64(buf, p, ENT_SZ, 48), name);
  }

  method EntCrcCompute(t: Table, crc: u32, e: Ent) returns (r: u32)
    requires t.Valid()
    modifies t.entries
    ensures t.Valid() && r == DivideBytes(crc, EntStream(e))
  {
    ghost var f := FeedOfEnt(crc, e);
    assert Fold(f, 0);
    r := GuidCrcCompute(t, crc, e.typeGuid);
    assert Fold(f, 1);
    r := GuidCrcCompute(t, r, e.uniqueGuid);
    r := Feed64(t, r, e.startLba, f, 2);
    r := Feed64(t, r, e.endLba, f, 3);
    r := Feed64(t, r, e.attr, f, 4);
    r := NameCrcCompute(t, r, e.name);
    DivideConcat(crc, EntFixed(e), NameStream(e.name));
  }

  method NameCrcCompute(t: Table, crc: u32, name: seq<u32>) returns (r: u32)
    requires t.Valid()
    modifies t.entries
    ensures t.Valid() && r == DivideBytes(crc, NameStream(name))
  {
    r := crc;
    for i := 0 to |name|
      invariant t.Valid() && r == DivideBytes(crc, NameStream(name[..i]))
    {
      r := t.Compute16(r, name[i]);
      assert name[..i + 1][..i] == name[..i];
      DivideConcat(crc, NameStream(name[..i]), Le2(name[i]));
    }
    assert name[..|name|] == name;
  }

  //////////////////////////////////////////////////////////////////////////////
  // Tables
  //////////////////////////////////////////////////////////////////////////////

  method TableCrcCreate(t: Table, table: array<Ent>, n: nat) returns (crc: u32)
    requires t.Valid() && n <= table.Length
    modifies t.entries
    ensures t.Valid() && crc == TableCrc(table[..n])
  {
    crc := ONES;
    for i := 0 to n
      invariant t.Valid() && crc == DivideBytes(ONES, TableStream(table[..i]))
    {
      crc := EntCrcCompute(t, crc, table[i]);
      assert table[..i + 1] == table[..][..i + 1] && table[..i] == table[..][..i];
      TableStreamTake(table[..], i);
      DivideConcat(ONES, TableStream(table[..i]), EntStream(table[i]));
    }
    crc := Xor32(crc, ONES);
  }

  method TableWrite(buf: array<byte>, p: nat, table: array<Ent>, n: nat, sz: nat)
    requires n <= table.Length && n <= MAX_PARTS && TableFits(buf.Length, p, n, sz)
    modifies buf
    ensures buf[..] == TableSplice(old(buf[..]), p, table[..n], sz)
  {
    ghost var s, rows := buf[..], table[..n];
    TableFitsTake(|s|, p, 0, n, sz);
    for i := 0 to n
      invariant TableFits(|s|, p, i, sz)
      invariant buf[..] == TableSplice(s, p, rows[..i], sz)
    {
      TableFitsTake(|s|, p, i + 1, n, sz);
      TableWriteEntry(buf, p, i, sz, table[i], s, rows);
    }
    assert rows[..n] == rows;
  }

  method TableWriteEntry(buf: array<byte>, p: nat, i: nat, sz: nat, e: Ent, ghost s: seq<byte>, ghost rows: seq<Ent>)
    requires i < |rows| && rows[i] == e && |s| == buf.Length
    requires TableFits(|s|, p, i + 1, sz) && TableFits(|s|, p, i, sz)
    requires buf[..] == TableSplice(s, p, rows[..i], sz)
    modifies buf
    ensures buf[..] == TableSplice(s, p, rows[..i + 1], sz)
  {
    TableSpliceStep(s, p, rows, i, sz);
    EntWrite(buf, p + i * sz, e);
  }

  method TableRead(buf: array<byte>, p: nat, table: array<Ent>, n: nat, sz: nat)
    requires n <= table.Length && n <= MAX_PARTS && TableFits(buf.Length, p, n, sz)
    modifies table
    ensures table[..n] == TableFromBytes(buf[..], p, n, sz)
  {
    ghost var s := buf[..];
    for i := 0 to n
      invariant buf[..] == s
      invariant forall j :: 0 <= j < i ==> table[j] == EntFromBytes(EntryAt(s, p, n, sz, j))
    {
      EntryFits(buf.Length, p, n, sz, i);
      var e := EntRead(buf, p + i * sz);
      assert buf[p + i * sz..p + i * sz + ENT_SZ] == EntryAt(s, p, n, sz, i);
      table[i] := e;
    }
  }
}
