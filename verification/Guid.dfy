/** Globally unique identifiers (libs/libpartman/src/guid.c). */
module Guids {
  import opened Words
  import opened Memutils
  import opened Crc32

  datatype GuidFields = GuidFields(timeLo: u32, timeMid: u16, timeHiVer: u16,
                                   clSeqHiRes: byte, clSeqLo: byte, nodes: seq<byte>)

  type Guid = g: GuidFields | |g.nodes| == 6 witness GuidFields(0, 0, 0, 0, 0, [0, 0, 0, 0, 0, 0])

  const ZERO_GUID: Guid := GuidFields(0, 0, 0, 0, 0, [0, 0, 0, 0, 0, 0])

  /** The sixteen bytes of a GUID on disk. */
  function GuidBytes(g: Guid): (s: seq<byte>)
    ensures |s| == 16
  {
    Le(g.timeLo, 4) + (Le(g.timeMid, 2) + (Le(g.timeHiVer, 2) + ([g.clSeqHiRes, g.clSeqLo] + g.nodes)))
  }

  function GuidParts(g: Guid): (parts: seq<seq<byte>>) {
    [Le(g.timeLo, 4), Le(g.timeMid, 2), Le(g.timeHiVer, 2), [g.clSeqHiRes], [g.clSeqLo]]
    + seq(6, i requires 0 <= i < 6 => [g.nodes[i]])
  }

  lemma {:induction false} ConcatOfBytes(parts: seq<seq<byte>>, s: seq<byte>)
    requires |parts| == |s| && forall k :: 0 <= k < |s| ==> parts[k] == [s[k]]
    ensures Concat(parts) == s
  {
    if s != [] {
      ConcatOfBytes(parts[1..], s[1..]);
    }
  }

  /** A GUID is stored as a structure of eleven fields. */
  lemma GuidStructure(g: Guid)
    ensures GuidBytes(g) == Concat(GuidParts(g))
  {
    var parts := GuidParts(g);
    var p1, p2, p3 := parts[1..], parts[2..], parts[3..];
    assert p1[1..] == p2 && p2[1..] == p3;
    ConcatOfBytes(p3, [g.clSeqHiRes, g.clSeqLo] + g.nodes);
    assert Concat(parts) == parts[0] + Concat(p1);
    assert Concat(p1) == parts[1] + Concat(p2);
    assert Concat(p2) == parts[2] + Concat(p3);
  }

  function GuidFromBytes(s: seq<byte>): Guid
    requires |s| == 16
  {
    SpanValues();
    FromLeBound(s[0..4]);
    FromLeBound(s[4..6]);
    FromLeBound(s[6..8]);
    GuidFields(FromLe(s[0..4]), FromLe(s[4..6]), FromLe(s[6..8]), s[8], s[9], s[10..])
  }

  /** A GUID read from sixteen bytes writes the same bytes back. */
  lemma GuidWriteRead(s: seq<byte>)
    requires |s| == 16
    ensures GuidBytes(GuidFromBytes(s)) == s
  {
    WriteRead(s[0..4]);
    WriteRead(s[4..6]);
    WriteRead(s[6..8]);
    assert s == s[0..4] + (s[4..6] + (s[6..8] + ([s[8], s[9]] + s[10..])));
  }

  /** A GUID written to disk is read back unchanged. */
  lemma GuidReadWrite(g: Guid)
    ensures GuidFromBytes(GuidBytes(g)) == g
  {
    var s := GuidBytes(g);
    assert s[0..4] == Le(g.timeLo, 4);
    assert s[4..6] == Le(g.timeMid, 2);
    assert s[6..8] == Le(g.timeHiVer, 2);
    assert s[10..] == g.nodes;
    SpanValues();
    ReadWrite(g.timeLo, 4);
    ReadWrite(g.timeMid, 2);
    ReadWrite(g.timeHiVer, 2);
  }

  //////////////////////////////////////////////////////////////////////////////
  // The program
  //////////////////////////////////////////////////////////////////////////////

  ghost predicate GuidFieldsMatch(parts: seq<seq<byte>>, g: Guid) {
    && |parts| == 11
    && parts[0] == Le(g.timeLo, 4) && parts[1] == Le(g.timeMid, 2) && parts[2] == Le(g.timeHiVer, 2)
    && parts[3] == Le(g.clSeqHiRes, 1) && parts[4] == Le(g.clSeqLo, 1)
    && (forall i :: 0 <= i < 6 ==> parts[5 + i] == Le(g.nodes[i], 1))
  }

  lemma GuidFieldsAre(parts: seq<seq<byte>>, g: Guid)
    requires parts == GuidParts(g)
    ensures GuidFieldsMatch(parts, g)
  {
    LeOfByte(g.clSeqHiRes);
    LeOfByte(g.clSeqLo);
    forall i | 0 <= i < 6
      ensures parts[5 + i] == Le(g.nodes[i], 1)
    {
      LeOfByte(g.nodes[i]);
    }
  }

  /** The structure that writing "g" at "p" builds. */
  lemma RecordOfGuid(s: seq<byte>, p: nat, g: Guid) returns (r: Record)
    requires p + 16 <= |s|
    ensures Upto(s, r, 0, p) && GuidFieldsMatch(r.parts, g)
    ensures r.stages[11] == Splice(s, p, GuidBytes(g))
  {
    GuidStructure(g);
    r := RecordStages(s, p, GuidParts(g));
    GuidFieldsAre(r.parts, g);
  }

  lemma FeedOfGuid(c: u32, g: Guid) returns (f: Feed)
    ensures Fed(c, f, 0) && GuidFieldsMatch(f.parts, g)
    ensures f.rests[11] == DivideBytes(c, GuidBytes(g))
  {
    GuidStructure(g);
    f := FeedStages(c, GuidParts(g));
    GuidFieldsAre(f.parts, g);
  }

  method GuidWrite(buf: array<byte>, p: nat, g: Guid)
    requires p + 16 <= buf.Length
    modifies buf
    ensures buf[..] == Splice(old(buf[..]), p, GuidBytes(g))
  {
    ghost var r := RecordOfGuid(buf[..], p, g);
    PutPu32(buf, p, g.timeLo, r, 0);
    PutPu16(buf, p + 4, g.timeMid, r, 1);
    PutPu16(buf, p + 6, g.timeHiVer, r, 2);
    PutPu8(buf, p + 8, g.clSeqHiRes, r, 3);
    PutPu8(buf, p + 9, g.clSeqLo, r, 4);
    for i := 0 to 6
      invariant Upto(buf[..], r, 5 + i, p + 10 + i)
    {
      PutPu8(buf, p + 10 + i, g.nodes[i], r, 5 + i);
    }
  }

  method GuidRead(buf: array<byte>, p: nat) returns (g: Guid)
    requires p + 16 <= buf.Length
    ensures g == GuidFromBytes(buf[p..p + 16])
  {
    ghost var s := buf[p..p + 16];
    SliceSlice(buf[..], p, 16, 0, 4);
    SliceSlice(buf[..], p, 16, 4, 6);
    SliceSlice(buf[..], p, 16, 6, 8);
    assert s == buf[..][p..p + 16];
    SpanValues();
    FromLeBound(s[0..4]);
    FromLeBound(s[4..6]);
    FromLeBound(s[6..8]);
    var nodes: seq<byte> := [];
    for i := 0 to 6
      invariant |nodes| == i && nodes == buf[p + 10..p + 10 + i]
    {
      nodes := nodes + [buf[p + 10 + i]];
    }
    assert nodes == s[10..];
    g := GuidFields(ReadPu32(buf, p), ReadPu16(buf, p + 4), ReadPu16(buf, p + 6),
                    buf[p + 8], buf[p + 9], nodes);
  }

  method GuidCrcCompute(t: Table, crc: u32, g: Guid) returns (r: u32)
    requires t.Valid()
    modifies t.entries
    ensures t.Valid() && r == DivideBytes(crc, GuidBytes(g))
  {
    ghost var f := FeedOfGuid(crc, g);
    r := Feed32(t, crc, g.timeLo, f, 0);
    r := Feed16(t, r, g.timeMid, f, 1);
    r := Feed16(t, r, g.timeHiVer, f, 2);
    r := Feed8(t, r, g.clSeqHiRes, f, 3);
    r := Feed8(t, r, g.clSeqLo, f, 4);
    for i := 0 to 6
      invariant t.Valid() && Fed(r, f, 5 + i)
    {
      r := Feed8(t, r, g.nodes[i], f, 5 + i);
    }
  }

  /** The program ORs all fields together; the flag here is that word being nonzero. */
  method GuidIsZero(g: Guid) returns (zero: bool)
    ensures zero == (g == ZERO_GUID)
  {
    var flag := g.timeLo != 0 || g.timeMid != 0 || g.timeHiVer != 0 || g.clSeqHiRes != 0 || g.clSeqLo != 0;
    for i := 0 to 6
      invariant flag <==> g.timeLo != 0 || g.timeMid != 0 || g.timeHiVer != 0 || g.clSeqHiRes != 0
                          || g.clSeqLo != 0 || exists k :: 0 <= k < i && g.nodes[k] != 0
    {
      flag := flag || g.nodes[i] != 0;
    }
    zero := !flag;
    assert zero ==> g.nodes == ZERO_GUID.nodes;
  }
}
