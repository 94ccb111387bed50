/**
  The on-disk structures of a GUID partition table and their checksums
  (libs/libpartman/src/gpt.c:39-378; sections 5.3.2 and 5.3.3 of the UEFI Specification).
 */
module GptFormat {
  import opened Words
  import opened Memutils
  import opened Crc32
  import opened Guids

  const GPT_SIG: seq<byte> := [0x45, 0x46, 0x49, 0x20, 0x50, 0x41, 0x52, 0x54]
  const HDR_SZ := 92
  const ENT_SZ := 93
  const MAX_PARTS := 128

  datatype Hdr = Hdr(rev: u32, hdrSz: u32, hdrCrc: u32, myLba: u64, altLba: u64,
                     firstUsable: u64, lastUsable: u64, diskGuid: Guid, tableLba: u64,
                     entryCnt: u32, entrySz: u32, tableCrc: u32)

  datatype EntFields = EntFields(typeGuid: Guid, uniqueGuid: Guid, startLba: u64, endLba: u64,
                                 attr: u64, name: seq<u32>)

  type Ent = e: EntFields | |e.name| == 36
    witness EntFields(ZERO_GUID, ZERO_GUID, 0, 0, 0, seq(36, _ => 0))

  /** An entry with all bytes zero. */
  function NoEnt(): Ent {
    EntFields(ZERO_GUID, ZERO_GUID, 0, 0, 0, ZeroName())
  }

  //////////////////////////////////////////////////////////////////////////////
  // Header
  //////////////////////////////////////////////////////////////////////////////

  /** Bytes 0..23: signature, revision, size, checksum, reserved. */
  function HdrHead(h: Hdr): (s: seq<byte>)
    ensures |s| == 24
  {
    GPT_SIG + (Le(h.rev, 4) + (Le(h.hdrSz, 4) + (Le(h.hdrCrc, 4) + Le(0, 4))))
  }

  /** Bytes 24..55: the sectors of the headers and of the usable range. */
  function HdrLbas(h: Hdr): (s: seq<byte>)
    ensures |s| == 32
  {
    Le(h.myLba, 8) + (Le(h.altLba, 8) + (Le(h.firstUsable, 8) + Le(h.lastUsable, 8)))
  }

  /** Bytes 56..91: the disk and its table. */
  function HdrTail(h: Hdr): (s: seq<byte>)
    ensures |s| == 36
  {
    GuidBytes(h.diskGuid)
    + (Le(h.tableLba, 8) + (Le(h.entryCnt, 4) + (Le(h.entrySz, 4) + Le(h.tableCrc, 4))))
  }

  /** The bytes of a header on disk. */
  function HdrBytes(h: Hdr): (s: seq<byte>)
    ensures |s| == HDR_SZ
  {
    HdrHead(h) + (HdrLbas(h) + HdrTail(h))
  }

  function U32At(s: seq<byte>, p: nat): u32
    requires p + 4 <= |s|
  {
    FromLeBound(s[p..p + 4]);
    SpanValues();
    FromLe(s[p..p + 4])
  }

  function U64At(s: seq<byte>, p: nat): u64
    requires p + 8 <= |s|
  {
    FromLeBound(s[p..p + 8]);
    SpanValues();
    FromLe(s[p..p + 8])
  }

  function HdrFromBytes(s: seq<byte>): Hdr
    requires |s| == HDR_SZ
  {
    Hdr(U32At(s, 8), U32At(s, 12), U32At(s, 16), U64At(s, 24), U64At(s, 32), U64At(s, 40), U64At(s, 48),
        GuidFromBytes(s[56..72]), U64At(s, 72), U32At(s, 80), U32At(s, 84), U32At(s, 88))
  }

  /** The checksum of a header: its bytes with the checksum field taken as zero. */
  function HdrCrc(h: Hdr): u32 {
    Checksum(HdrBytes(h.(hdrCrc := 0)))
  }

  lemma HdrSlices(h: Hdr)
    ensures var s := HdrBytes(h);
            s[..24] == HdrHead(h) && s[24..56] == HdrLbas(h) && s[56..92] == HdrTail(h)
  {
  }

  lemma HdrHeadSlices(h: Hdr)
    ensures var s := HdrHead(h);
            && s[0..8] == GPT_SIG && s[8..12] == Le(h.rev, 4) && s[12..16] == Le(h.hdrSz, 4)
            && s[16..20] == Le(h.hdrCrc, 4) && s[20..24] == Le(0, 4)
  {
  }

  lemma HdrLbasSlices(h: Hdr)
    ensures var s := HdrLbas(h);
            && s[0..8] == Le(h.myLba, 8) && s[8..16] == Le(h.altLba, 8)
            && s[16..24] == Le(h.firstUsable, 8) && s[24..32] == Le(h.lastUsable, 8)
  {
  }

  lemma HdrTailSlices(h: Hdr)
    ensures var s := HdrTail(h);
            && s[0..16] == GuidBytes(h.diskGuid) && s[16..24] == Le(h.tableLba, 8)
            && s[24..28] == Le(h.entryCnt, 4) && s[28..32] == Le(h.entrySz, 4)
            && s[32..36] == Le(h.tableCrc, 4)
  {
  }

  /** A field of a part of "s" that starts at "p". */
  lemma FieldAt(s: seq<byte>, p: nat, n: nat, t: seq<byte>, a: nat, b: nat, v: seq<byte>)
    requires p + n <= |s| && s[p..p + n] == t && a <= b <= n && t[a..b] == v
    ensures s[p + a..p + b] == v
  {
    SliceSlice(s, p, n, a, b);
  }

  lemma FieldU32(s: seq<byte>, p: nat, n: nat, t: seq<byte>, a: nat, v: u32)
    requires p + n <= |s| && s[p..p + n] == t && a + 4 <= n && t[a..a + 4] == Le(v, 4)
    ensures U32At(s, p + a) == v
  {
    FieldAt(s, p, n, t, a, a + 4, Le(v, 4));
    SpanValues();
    ReadWrite(v, 4);
  }

  lemma FieldU64(s: seq<byte>, p: nat, n: nat, t: seq<byte>, a: nat, v: u64)
    requires p + n <= |s| && s[p..p + n] == t && a + 8 <= n && t[a..a + 8] == Le(v, 8)
    ensures U64At(s, p + a) == v
  {
    FieldAt(s, p, n, t, a, a + 8, Le(v, 8));
    SpanValues();
    ReadWrite(v, 8);
  }

  /** A header written to disk is read back unchanged. */
  lemma HdrReadWrite(h: Hdr)
    ensures HdrFromBytes(HdrBytes(h)) == h
  {
    var s := HdrBytes(h);
    HdrSlices(h);
    HdrReadHead(s, h);
    HdrReadLbas(s, h);
    HdrReadTail(s, h);
  }

  lemma HdrReadHead(s: seq<byte>, h: Hdr)
    requires |s| == HDR_SZ && s[0..24] == HdrHead(h)
    ensures U32At(s, 8) == h.rev && U32At(s, 12) == h.hdrSz && U32At(s, 16) == h.hdrCrc
  {
    HdrHeadSlices(h);
    FieldU32(s, 0, 24, HdrHead(h), 8, h.rev);
    FieldU32(s, 0, 24, HdrHead(h), 12, h.hdrSz);
    FieldU32(s, 0, 24, HdrHead(h), 16, h.hdrCrc);
  }

  lemma HdrReadLbas(s: seq<byte>, h: Hdr)
    requires |s| == HDR_SZ && s[24..56] == HdrLbas(h)
    ensures U64At(s, 24) == h.myLba && U64At(s, 32) == h.altLba
    ensures U64At(s, 40) == h.firstUsable && U64At(s, 48) == h.lastUsable
  {
    HdrLbasSlices(h);
    FieldU64(s, 24, 32, HdrLbas(h), 0, h.myLba);
    FieldU64(s, 24, 32, HdrLbas(h), 8, h.altLba);
    FieldU64(s, 24, 32, HdrLbas(h), 16, h.firstUsable);
    FieldU64(s, 24, 32, HdrLbas(h), 24, h.lastUsable);
  }

  lemma HdrReadTail(s: seq<byte>, h: Hdr)
    requires |s| == HDR_SZ && s[56..92] == HdrTail(h)
    ensures GuidFromBytes(s[56..72]) == h.diskGuid && U64At(s, 72) == h.tableLba
    ensures U32At(s, 80) == h.entryCnt && U32At(s, 84) == h.entrySz && U32At(s, 88) == h.tableCrc
  {
    HdrTailSlices(h);
    FieldAt(s, 56, 36, HdrTail(h), 0, 16, GuidBytes(h.diskGuid));
    GuidReadWrite(h.diskGuid);
    FieldU64(s, 56, 36, HdrTail(h), 16, h.tableLba);
    FieldU32(s, 56, 36, HdrTail(h), 24, h.entryCnt);
    FieldU32(s, 56, 36, HdrTail(h), 28, h.entrySz);
    FieldU32(s, 56, 36, HdrTail(h), 32, h.tableCrc);
  }

  lemma LeU32At(s: seq<byte>, p: nat)
    requires p + 4 <= |s|
    ensures Le(U32At(s, p), 4) == s[p..p + 4]
  {
    WriteRead(s[p..p + 4]);
  }

  lemma LeU64At(s: seq<byte>, p: nat)
    requires p + 8 <= |s|
    ensures Le(U64At(s, p), 8) == s[p..p + 8]
  {
    WriteRead(s[p..p + 8]);
  }

  lemma HdrWriteHead(s: seq<byte>)
    requires |s| == HDR_SZ
    ensures HdrHead(HdrFromBytes(s)) == GPT_SIG + s[8..20] + Zeros(4)
  {
    LeU32At(s, 8);
    LeU32At(s, 12);
    LeU32At(s, 16);
    LeOfFour(0);
    assert s[8..20] == s[8..12] + (s[12..16] + s[16..20]);
    assert Le(0, 4) == Zeros(4);
  }

  lemma LbasSplit(s: seq<byte>)
    requires |s| == HDR_SZ
    ensures s[24..56] == s[24..32] + (s[32..40] + (s[40..48] + s[48..56]))
  {
  }

  lemma HdrLbasAre(h: Hdr, a: seq<byte>, b: seq<byte>, c: seq<byte>, d: seq<byte>)
    requires Le(h.myLba, 8) == a && Le(h.altLba, 8) == b && Le(h.firstUsable, 8) == c && Le(h.lastUsable, 8) == d
    ensures HdrLbas(h) == a + (b + (c + d))
  {
  }

  lemma HdrWriteLbas(s: seq<byte>)
    requires |s| == HDR_SZ
    ensures HdrLbas(HdrFromBytes(s)) == s[24..56]
  {
    LeU64At(s, 24);
    LeU64At(s, 32);
    LeU64At(s, 40);
    LeU64At(s, 48);
    HdrLbasAre(HdrFromBytes(s), s[24..32], s[32..40], s[40..48], s[48..56]);
    LbasSplit(s);
  }

  lemma TailSplit(s: seq<byte>)
    requires |s| == HDR_SZ
    ensures s[56..] == s[56..72] + (s[72..80] + (s[80..84] + (s[84..88] + s[88..92])))
  {
  }

  lemma HdrWriteTail(s: seq<byte>)
    requires |s| == HDR_SZ
    ensures HdrTail(HdrFromBytes(s)) == s[56..]
  {
    var h := HdrFromBytes(s);
    var g := GuidBytes(h.diskGuid);
    assert g == s[56..72] by {
      GuidWriteRead(s[56..72]);
    }
    LeU64At(s, 72);
    LeU32At(s, 80);
    LeU32At(s, 84);
    LeU32At(s, 88);
    TailSplit(s);
  }

  /** Writing a header that was read restores every byte but the signature and the reserved word. */
  lemma HdrWriteRead(s: seq<byte>)
    requires |s| == HDR_SZ
    ensures HdrBytes(HdrFromBytes(s)) == GPT_SIG + s[8..20] + Zeros(4) + s[24..]
  {
    HdrWriteHead(s);
    HdrWriteLbas(s);
    HdrWriteTail(s);
    assert s[24..] == s[24..56] + s[56..];
  }

  /** The checksum of a header read from signed bytes runs over those bytes, with 16..24 cleared. */
  lemma HdrCrcOfBytes(s: seq<byte>)
    requires |s| == HDR_SZ && s[..8] == GPT_SIG
    ensures HdrCrc(HdrFromBytes(s)) == Checksum(s[..16] + Zeros(8) + s[24..])
  {
    var h0 := HdrFromBytes(s).(hdrCrc := 0);
    HdrClearedHead(s, h0);
    HdrWriteLbas(s);
    HdrWriteTail(s);
    HdrBytesAre(h0, s[..16] + Zeros(8), s[24..56], s[56..]);
    RestSplit(s, s[..16] + Zeros(8));
  }

  lemma RestSplit(s: seq<byte>, a: seq<byte>)
    requires |s| == HDR_SZ
    ensures a + (s[24..56] + s[56..]) == a + s[24..]
  {
    assert s[24..] == s[24..56] + s[56..];
  }

  lemma HdrBytesAre(h: Hdr, a: seq<byte>, b: seq<byte>, c: seq<byte>)
    requires HdrHead(h) == a && HdrLbas(h) == b && HdrTail(h) == c
    ensures HdrBytes(h) == a + (b + c)
  {
  }

  lemma HdrClearedHead(s: seq<byte>, h0: Hdr)
    requires |s| == HDR_SZ && s[..8] == GPT_SIG && h0 == HdrFromBytes(s).(hdrCrc := 0)
    ensures HdrHead(h0) == s[..16] + Zeros(8)
  {
    var h := HdrFromBytes(s);
    HdrWriteHead(s);
    HdrHeadSlices(h);
    HdrHeadSlices(h0);
    LeOfFour(0);
    ClearedHead(HdrHead(h), HdrHead(h0), s);
  }

  lemma ClearedHead(t: seq<byte>, u: seq<byte>, s: seq<byte>)
    requires |s| == HDR_SZ && |t| == |u| == 24 && t == s[..8] + s[8..20] + Zeros(4)
    requires u[0..8] == t[0..8] && u[8..12] == t[8..12] && u[12..16] == t[12..16]
    requires u[16..20] == [0, 0, 0, 0] == u[20..24]
    ensures u == s[..16] + Zeros(8)
  {
    assert u == u[0..8] + u[8..16] + u[16..24];
    assert u[8..16] == u[8..12] + u[12..16] && u[16..24] == u[16..20] + u[20..24];
    assert t[8..16] == t[8..12] + t[12..16];
    assert t[0..8] + t[8..16] == s[..16];
  }

  function Zeros(n: nat): (s: seq<byte>)
    ensures |s| == n && forall i :: 0 <= i < n ==> s[i] == 0
  {
    seq(n, _ => 0)
  }
}
