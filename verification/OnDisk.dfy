/**
  Where a saved image holds what, byte by byte (sections 5.2.1, 5.3.2 and 5.3.3
  of the UEFI Specification; libs/libpartman/src/gpt.c:258-356,
  libs/libpartman/src/guid.c:47-60, libs/libpartman/src/mbr.c:91-128).
 */
module OnDisk {
  import opened Words
  import opened Memutils
  import opened Crc32
  import opened Guids
  import opened ImgCtxs
  import opened Schemes
  import opened GptFormat
  import opened GptTable
  import opened GptStore
  import opened GptRecovery
  import opened GptTheorems
  import opened GptScheme
  import M = MbrScheme

  //////////////////////////////////////////////////////////////////////////////
  // GPT
  //////////////////////////////////////////////////////////////////////////////

  /** A header with the fields of the scheme, for its own sector, the other header's and that of its table. */
  ghost predicate HdrHolds(b: seq<byte>, s: Schem, my: nat, alt: nat, table: nat)
    requires |b| == 92
  {
    && b[0] == 'E' as int && b[1] == 'F' as int && b[2] == 'I' as int && b[3] == ' ' as int
    && b[4] == 'P' as int && b[5] == 'A' as int && b[6] == 'R' as int && b[7] == 'T' as int
    && FromLe(b[8..12]) == 0x1_0000 && FromLe(b[12..16]) == 92
    && FromLe(b[24..32]) == my && FromLe(b[32..40]) == alt
    && FromLe(b[40..48]) == s.first && FromLe(b[48..56]) == s.last && b[56..72] == GuidBytes(s.idGuid)
    && FromLe(b[72..80]) == table && FromLe(b[80..84]) == |s.table| && FromLe(b[84..88]) == 128
  }

  lemma HdrBytesHold(h: Hdr, s: Schem, my: nat, alt: nat, table: nat, b: seq<byte>)
    requires b == HdrBytes(h) && h.rev == 0x1_0000 && h.hdrSz == 92 && h.myLba == my && h.altLba == alt
    requires h.firstUsable == s.first && h.lastUsable == s.last && h.diskGuid == s.idGuid
    requires h.tableLba == table && h.entryCnt == |s.table| && h.entrySz == 128
    ensures HdrHolds(b, s, my, alt, table)
  {
    HdrReadWrite(h);
    HdrSlices(h);
    HdrTailSlices(h);
    GuidWriteRead(b[56..72]);
  }

  /** The bytes of a GUID: three little-endian numbers, then eight bytes in order. */
  lemma GuidOnDisk(g: Guid)
    ensures var b := GuidBytes(g);
            && |b| == 16
            && FromLe(b[0..4]) == g.timeLo && FromLe(b[4..6]) == g.timeMid && FromLe(b[6..8]) == g.timeHiVer
            && b[8] == g.clSeqHiRes && b[9] == g.clSeqLo && b[10..16] == g.nodes
  {
    GuidReadWrite(g);
  }

  ghost predicate HdrStored(img: seq<byte>, p: nat, s: Schem, my: nat, alt: nat, table: nat) {
    p + 92 <= |img| && HdrHolds(img[p..p + 92], s, my, alt, table)
  }

  /** A header is accepted exactly if signature, checksum and position are right, whatever else it holds. */
  lemma HdrFoundIff(ctx: ImgCtx, img: seq<byte>, lba: nat)
    requires HdrMaps(ctx, |img|, lba)
    ensures var b := HdrSlice(ctx, img, lba);
            HdrFound(ctx, img, lba)
            <==> b[..8] == [0x45, 0x46, 0x49, 0x20, 0x50, 0x41, 0x52, 0x54] && FromLe(b[24..32]) == lba
                 && FromLe(b[16..20]) == Checksum(b[..16] + Zeros(8) + b[24..])
  {
    var b := HdrSlice(ctx, img, lba);
    if b[..8] == GPT_SIG {
      HdrCrcOfBytes(b);
    }
  }

  lemma HdrAtStored(ctx: ImgCtx, img: seq<byte>, h: Hdr, p: nat, s: Schem, alt: nat, table: nat)
    requires HdrAt(ctx, img, h) && p == LbaToByte(ctx, h.myLba) && h.rev == 0x1_0000 && h.hdrSz == 92 && h.altLba == alt
    requires h.firstUsable == s.first && h.lastUsable == s.last && h.diskGuid == s.idGuid
    requires h.tableLba == table && h.entryCnt == |s.table| && h.entrySz == 128
    ensures HdrStored(img, p, s, h.myLba, alt, table)
  {
    HdrBytesHold(h, s, h.myLba, alt, table, img[p..p + 92]);
  }

  lemma HdrConstants(s: Schem, ctx: ImgCtx)
    requires Validates(ctx) && Saveable(s)
    ensures PrimHdrOf(s, ctx).rev == SecHdrOf(s, ctx).rev == 0x1_0000
    ensures PrimHdrOf(s, ctx).hdrSz == SecHdrOf(s, ctx).hdrSz == 92
  {
  }

  /** Both headers of a saved image: in sector 1 and in the last one, naming each other and their tables. */
  lemma HdrsOnDisk(ctx: ImgCtx, img: seq<byte>, s: Schem)
    requires Validates(ctx) && Saveable(s) && |img| == ctx.imgSz
    ensures var t := Save(ctx, img, s);
            && HdrStored(t, PrimAt(ctx), s, 1, EndLba(ctx), 2)
            && HdrStored(t, SecAt(ctx), s, EndLba(ctx), 1, EndLba(ctx) - TableSecs(ctx))
  {
    Saved(ctx, img, s);
    Layout(ctx);
    HdrsOf(s, ctx);
    HdrConstants(s, ctx);
    var t := Save(ctx, img, s);
    HdrAtStored(ctx, t, PrimHdrOf(s, ctx), PrimAt(ctx), s, EndLba(ctx), 2);
    HdrAtStored(ctx, t, SecHdrOf(s, ctx), SecAt(ctx), s, 1, SecTableLba(ctx));
  }

  /** A used entry: both GUIDs, the bounds, the attributes, and the low bytes of the name; an unused one has no type. */
  ghost predicate EntryHolds(b: seq<byte>, p: Part)
    requires |b| == 93
  {
    if p.typeGuid == ZERO_GUID then b[0..16] == GuidBytes(ZERO_GUID)
    else
      && b[0..16] == GuidBytes(p.typeGuid) && b[16..32] == GuidBytes(p.uniqueGuid)
      && FromLe(b[32..40]) == p.startLba && FromLe(b[40..48]) == p.endLba && FromLe(b[48..56]) == p.attr
      && forall j :: 0 <= j < 36 ==> b[56 + j] == p.name[j] % 0x100
  }

  lemma EntBytesHold(e: Ent, p: Part, b: seq<byte>)
    requires b == EntBytes(e) && e == EntOf(p)
    ensures EntryHolds(b, p)
  {
    assert b[0..56] == EntFixed(e);
    EntFieldsAt(b, e, EntFixed(e));
  }

  ghost predicate EntryStored(img: seq<byte>, q: nat, p: Part) {
    q + 93 <= |img| && EntryHolds(img[q..q + 93], p)
  }

  lemma {:induction false} EntryAtStored(img: seq<byte>, q: nat, parts: seq<Part>, i: nat)
    requires EntriesAt(img, q, EntsOf(parts)) && i < |parts|
    ensures EntryStored(img, q + i * 128, parts[i])
  {
    var p := q + i * 128;
    assert EntryIs(img, p, EntsOf(parts)[i]);
    EntBytesHold(EntOf(parts[i]), parts[i], img[p..p + 93]);
  }

  lemma {:induction false} IntactStored(ctx: ImgCtx, img: seq<byte>, s: Schem, i: nat)
    requires Validates(ctx) && Saveable(s) && i < |s.table| && PrimIntact(ctx, img, s) && SecIntact(ctx, img, s)
    ensures EntryStored(img, PrimTableAt(ctx) + i * 128, s.table[i])
    ensures EntryStored(img, SecTableAt(ctx) + i * 128, s.table[i])
  {
    EntryAtStored(img, PrimTableAt(ctx), s.table, i);
    EntryAtStored(img, SecTableAt(ctx), s.table, i);
  }

  /** Both tables of a saved image: 128 bytes an entry. */
  lemma {:induction false} EntriesOnDisk(ctx: ImgCtx, img: seq<byte>, s: Schem, i: nat)
    requires Validates(ctx) && Saveable(s) && |img| == ctx.imgSz && i < |s.table|
    ensures EntryStored(Save(ctx, img, s), PrimTableAt(ctx) + i * 128, s.table[i])
    ensures EntryStored(Save(ctx, img, s), SecTableAt(ctx) + i * 128, s.table[i])
  {
    Saved(ctx, img, s);
    IntactStored(ctx, Save(ctx, img, s), s, i);
  }

  /** The primary table begins in sector 2; the secondary one ends where the last whole sector begins. */
  lemma TablePlaces(ctx: ImgCtx)
    requires Validates(ctx)
    ensures PrimAt(ctx) == ctx.secSz && PrimTableAt(ctx) == 2 * ctx.secSz
    ensures SecTableAt(ctx) + 16384 == SecAt(ctx) <= ctx.imgSz - ctx.secSz < SecAt(ctx) + ctx.secSz
  {
    Places(ctx);
    ByteToLbaDown(ctx, ctx.imgSz);
    LbaSum(ctx, LastLba(ctx), 1);
  }

  /** A table is read at the position and with the entry size that its header names. */
  lemma TableReadAt(ctx: ImgCtx, img: seq<byte>, h: Hdr, i: nat, q: nat)
    requires ctx.secSz > 0 && TableMaps(ctx, |img|, h.tableLba, h.entryCnt, h.entrySz) && i < h.entryCnt
    requires q == LbaToByte(ctx, h.tableLba) + i * h.entrySz
    ensures q + 93 <= |img| && LoadTable(ctx, img, h)[i] == EntFromBytes(img[q..q + 93])
  {
    EntryFits(|img|, LbaToByte(ctx, h.tableLba), h.entryCnt, h.entrySz, i);
  }

  /** Removing a GPT clears the eight bytes of each signature and no other byte. */
  lemma RemovedFrame(ctx: ImgCtx, img: seq<byte>, x: nat)
    requires Validates(ctx) && |img| == ctx.imgSz && x < |img|
    ensures Removed(ctx, img)[x] == if PrimAt(ctx) <= x < PrimAt(ctx) + 8 || SecAt(ctx) <= x < SecAt(ctx) + 8 then 0
                                    else img[x]
  {
    Places(ctx);
    var a := Splice(img, PrimAt(ctx), Zeros(8));
    SpliceAt(img, PrimAt(ctx), Zeros(8), x);
    SpliceAt(a, SecAt(ctx), Zeros(8), x);
  }

  //////////////////////////////////////////////////////////////////////////////
  // MBR
  //////////////////////////////////////////////////////////////////////////////

  /** An MBR is found exactly if sector 0 ends its 512 bytes with 55 AA. */
  lemma MbrFoundIff(img: seq<byte>)
    requires 512 <= |img|
    ensures M.Present(img) <==> img[510] == 0x55 && img[511] == 0xAA
  {
    var u := img[510..512];
    assert u[1..][1..] == [];
    assert FromLe(u) == u[0] + 0x100 * FromLe(u[1..]);
    assert FromLe(u[1..]) == u[1];
  }

  /** The bytes of an MBR: identifier, four entries of sixteen bytes, boot signature. */
  lemma MbrOnDisk(img: seq<byte>, m: M.Mbr, i: nat)
    requires 512 <= |img| && i < 4 && forall k :: 0 <= k < 4 ==> M.Narrow(m.parts[k])
    ensures var t := M.Written(img, m);
            var b := t[446 + 16 * i..462 + 16 * i];
            && FromLe(t[440..444]) == m.diskSig && t[510] == 0x55 && t[511] == 0xAA
            && b[0] == m.parts[i].bootInd && FromLe(b[1..4]) == m.parts[i].startChs
            && b[4] == m.parts[i].typ && FromLe(b[5..8]) == m.parts[i].endChs
            && FromLe(b[8..12]) == m.parts[i].startLba && FromLe(b[12..16]) == m.parts[i].szLba
  {
    var t := M.Written(img, m);
    M.ReadWritten(img, m);
    M.WrittenSlices(img, m);
    var u := t[510..512];
    assert u == Le(M.BOOT_SIG, 2) && u[0] == 0x55 && u[1] == 0xAA;
  }
}
