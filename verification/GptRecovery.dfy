/**
  What survives on disk: saving and loading again, losing one of the two pairs,
  and a save that is cut short (libs/libpartman/src/gpt.c:386-831; section 5.3.1
  of the UEFI Specification).
 */
module GptRecovery {
  import opened Words
  import opened Memutils
  import opened ImgCtxs
  import opened Schemes
  import opened GptFormat
  import opened GptTable
  import opened GptStore

  //////////////////////////////////////////////////////////////////////////////
  // Structures in an image
  //////////////////////////////////////////////////////////////////////////////

  ghost predicate HdrAt(ctx: ImgCtx, img: seq<byte>, h: Hdr) {
    HdrMaps(ctx, |img|, h.myLba) && HdrSlice(ctx, img, h.myLba) == HdrBytes(h)
  }

  ghost predicate EntriesAt(img: seq<byte>, p: nat, table: seq<Ent>) {
    forall i :: 0 <= i < |table| ==> EntryIs(img, p + i * 128, table[i])
  }

  ghost predicate EntryIs(img: seq<byte>, q: nat, e: Ent) {
    q + ENT_SZ <= |img| && img[q..q + ENT_SZ] == EntBytes(e)
  }

  ghost predicate AllChained(table: seq<Ent>) {
    forall i :: 0 <= i < |table| ==> Chained(table[i].name)
  }

  /** A header that belongs to a table and validates. */
  ghost predicate Matching(ctx: ImgCtx, len: nat, h: Hdr, table: seq<Ent>)
    requires ctx.secSz > 0
  {
    && h.hdrCrc == HdrCrc(h)
    && h.entryCnt == |table| <= MAX_PARTS && h.entrySz == GPT_ENTRY_SZ
    && TableMaps(ctx, len, h.tableLba, |table|, GPT_ENTRY_SZ)
    && h.tableCrc == TableCrc(table)
  }

  lemma EntriesRead(img: seq<byte>, p: nat, table: seq<Ent>)
    requires TableFits(|img|, p, |table|, GPT_ENTRY_SZ)
    requires EntriesAt(img, p, table) && AllChained(table)
    ensures TableFromBytes(img, p, |table|, GPT_ENTRY_SZ) == table
  {
    forall i | 0 <= i < |table|
      ensures EntFromBytes(EntryAt(img, p, |table|, GPT_ENTRY_SZ, i)) == table[i]
    {
      assert EntryIs(img, p + i * 128, table[i]);
      EntryReads(img, p, |table|, i, p + i * 128, table[i]);
    }
  }

  lemma EntryReads(img: seq<byte>, p: nat, n: nat, i: nat, q: nat, e: Ent)
    requires TableFits(|img|, p, n, GPT_ENTRY_SZ) && i < n && q == p + i * 128 && EntryIs(img, q, e) && Chained(e.name)
    ensures EntFromBytes(EntryAt(img, p, n, GPT_ENTRY_SZ, i)) == e
  {
    EntReadWriteIff(e);
  }

  /** The bytes of a header with its own checksum are valid at its own sector. */
  lemma HdrBytesValid(h: Hdr)
    requires h.hdrCrc == HdrCrc(h)
    ensures HdrValid(HdrBytes(h), h.myLba) && HdrFromBytes(HdrBytes(h)) == h
  {
    HdrReadWrite(h);
    HdrSlices(h);
    HdrHeadSlices(h);
    var s := HdrBytes(h);
    assert s[..8] == s[..24][0..8];
  }

  /** A header in place validates when it is loaded from its own sector. */
  lemma HdrLoads(ctx: ImgCtx, img: seq<byte>, h: Hdr)
    requires ctx.secSz > 0 && HdrAt(ctx, img, h) && h.hdrCrc == HdrCrc(h)
    ensures LoadPair(ctx, img, h.myLba) == LoadPairTable(ctx, img, h)
  {
    HdrBytesValid(h);
  }

  /** A matching header and table in place are loaded. */
  lemma PairLoads(ctx: ImgCtx, img: seq<byte>, h: Hdr, table: seq<Ent>)
    requires ctx.secSz > 0 && HdrAt(ctx, img, h) && Matching(ctx, |img|, h, table)
    requires EntriesAt(img, LbaToByte(ctx, h.tableLba), table) && AllChained(table)
    ensures LoadPair(ctx, img, h.myLba) == PairOk(h, table)
  {
    HdrLoads(ctx, img, h);
    TableLoads(ctx, img, h, table);
  }

  lemma TableLoads(ctx: ImgCtx, img: seq<byte>, h: Hdr, table: seq<Ent>)
    requires ctx.secSz > 0 && Matching(ctx, |img|, h, table)
    requires EntriesAt(img, LbaToByte(ctx, h.tableLba), table) && AllChained(table)
    ensures LoadPairTable(ctx, img, h) == PairOk(h, table)
  {
    EntriesRead(img, LbaToByte(ctx, h.tableLba), table);
  }

  //////////////////////////////////////////////////////////////////////////////
  // Frames
  //////////////////////////////////////////////////////////////////////////////

  ghost predicate Agree(s: seq<byte>, t: seq<byte>, a: nat, b: nat) {
    |s| == |t| && forall x :: a <= x < b && x < |s| ==> s[x] == t[x]
  }

  lemma AgreeSlice(s: seq<byte>, t: seq<byte>, a: nat, b: nat, c: nat, d: nat)
    requires Agree(s, t, a, b) && a <= c <= d <= b && d <= |s|
    ensures s[c..d] == t[c..d]
  {
  }

  /** A table that lies where two images agree reads the same in both. */
  lemma TableReadStays(img: seq<byte>, t: seq<byte>, a: nat, b: nat, p: nat, n: nat, sz: nat)
    requires Agree(img, t, a, b) && a <= p && b <= |img| && TableFits(|img|, p, n, sz) && TableFits(b, p, n, sz)
    ensures TableFromBytes(t, p, n, sz) == TableFromBytes(img, p, n, sz)
  {
    forall i | 0 <= i < n
      ensures EntryAt(t, p, n, sz, i) == EntryAt(img, p, n, sz, i)
    {
      EntryStays(img, t, a, b, p, n, sz, i);
    }
  }

  lemma EntryStays(img: seq<byte>, t: seq<byte>, a: nat, b: nat, p: nat, n: nat, sz: nat, i: nat)
    requires Agree(img, t, a, b) && a <= p && b <= |img| && i < n
    requires TableFits(|img|, p, n, sz) && TableFits(b, p, n, sz)
    ensures EntryAt(t, p, n, sz, i) == EntryAt(img, p, n, sz, i)
  {
    EntryFits(b, p, n, sz, i);
    var q := p + i * sz;
    AgreeSlice(img, t, a, b, q, q + ENT_SZ);
  }

  lemma PairTableStays(ctx: ImgCtx, img: seq<byte>, t: seq<byte>, a: nat, b: nat, h: Hdr)
    requires ctx.secSz > 0 && Agree(img, t, a, b) && a <= LbaToByte(ctx, h.tableLba) && b <= |img|
    requires TableMaps(ctx, |img|, h.tableLba, h.entryCnt, h.entrySz)
             ==> TableFits(b, LbaToByte(ctx, h.tableLba), h.entryCnt, h.entrySz)
    ensures LoadPairTable(ctx, t, h) == LoadPairTable(ctx, img, h)
  {
    if TableMaps(ctx, |img|, h.tableLba, h.entryCnt, h.entrySz) {
      TableReadStays(img, t, a, b, LbaToByte(ctx, h.tableLba), h.entryCnt, h.entrySz);
    }
  }

  lemma HdrStays(ctx: ImgCtx, s: seq<byte>, t: seq<byte>, a: nat, b: nat, h: Hdr)
    requires HdrAt(ctx, s, h) && Agree(s, t, a, b)
    requires a <= LbaToByte(ctx, h.myLba) && LbaToByte(ctx, h.myLba) + HDR_SZ <= b
    ensures HdrAt(ctx, t, h)
  {
    AgreeSlice(s, t, a, b, LbaToByte(ctx, h.myLba), LbaToByte(ctx, h.myLba) + HDR_SZ);
  }

  lemma EntriesStay(s: seq<byte>, t: seq<byte>, a: nat, b: nat, p: nat, table: seq<Ent>)
    requires EntriesAt(s, p, table) && Agree(s, t, a, b) && a <= p && p + |table| * 128 <= b
    ensures EntriesAt(t, p, table)
  {
    forall i | 0 <= i < |table|
      ensures EntryIs(t, p + i * 128, table[i])
    {
      var q := p + i * 128;
      assert EntryIs(s, q, table[i]);
      AgreeSlice(s, t, a, b, q, q + ENT_SZ);
    }
  }

  lemma HdrWritten(ctx: ImgCtx, img: seq<byte>, h: Hdr)
    requires RegionFits(ctx, |img|, HdrRegion(h))
    ensures HdrAt(ctx, WriteRegion(ctx, img, HdrRegion(h)), h)
  {
    SpliceSlice(img, LbaToByte(ctx, h.myLba), HdrBytes(h));
  }

  lemma HdrWriteFrame(ctx: ImgCtx, img: seq<byte>, h: Hdr, a: nat, b: nat)
    requires RegionFits(ctx, |img|, HdrRegion(h))
    requires b <= LbaToByte(ctx, h.myLba) || LbaToByte(ctx, h.myLba) + HDR_SZ <= a
    ensures Agree(img, WriteRegion(ctx, img, HdrRegion(h)), a, b)
  {
    forall x | a <= x < b && x < |img|
      ensures WriteRegion(ctx, img, HdrRegion(h))[x] == img[x]
    {
      SpliceAt(img, LbaToByte(ctx, h.myLba), HdrBytes(h), x);
    }
  }

  lemma TableWritten(ctx: ImgCtx, img: seq<byte>, lba: nat, table: seq<Ent>)
    requires RegionFits(ctx, |img|, TableRegion(lba, table, GPT_ENTRY_SZ))
    ensures EntriesAt(WriteRegion(ctx, img, TableRegion(lba, table, GPT_ENTRY_SZ)), LbaToByte(ctx, lba), table)
  {
    TableSpliced(img, LbaToByte(ctx, lba), table);
  }

  lemma TableSpliced(img: seq<byte>, p: nat, table: seq<Ent>)
    requires TableFits(|img|, p, |table|, 128)
    ensures EntriesAt(TableSplice(img, p, table, 128), p, table)
  {
    var t := TableSplice(img, p, table, 128);
    forall i | 0 <= i < |table|
      ensures EntryIs(t, p + i * 128, table[i])
    {
      TableSpliceEntry(img, p, table, 128, i, p + i * 128);
    }
  }

  lemma TableWriteFrame(ctx: ImgCtx, img: seq<byte>, lba: nat, table: seq<Ent>, a: nat, b: nat)
    requires RegionFits(ctx, |img|, TableRegion(lba, table, GPT_ENTRY_SZ))
    requires b <= LbaToByte(ctx, lba) || LbaToByte(ctx, lba) + |table| * 128 <= a
    ensures Agree(img, WriteRegion(ctx, img, TableRegion(lba, table, GPT_ENTRY_SZ)), a, b)
  {
    forall x | a <= x < b && x < |img|
      ensures WriteRegion(ctx, img, TableRegion(lba, table, GPT_ENTRY_SZ))[x] == img[x]
    {
      TableSpliceFrame(img, LbaToByte(ctx, lba), table, GPT_ENTRY_SZ, x);
    }
  }

  //////////////////////////////////////////////////////////////////////////////
  // The four writes of a save
  //////////////////////////////////////////////////////////////////////////////

  /** Byte positions of the four structures. */
  function PrimAt(ctx: ImgCtx): nat { LbaToByte(ctx, PRIM_LBA) }
  function PrimTableAt(ctx: ImgCtx): nat { LbaToByte(ctx, PRIM_TABLE_LBA) }
  function SecTableAt(ctx: ImgCtx): nat
    requires Validates(ctx)
  {
    Layout(ctx);
    LbaToByte(ctx, SecTableLba(ctx))
  }
  function SecAt(ctx: ImgCtx): nat
    requires Validates(ctx)
  {
    Layout(ctx);
    LbaToByte(ctx, LastLba(ctx))
  }

  lemma Places(ctx: ImgCtx)
    requires Validates(ctx)
    ensures 512 <= PrimAt(ctx) && PrimAt(ctx) + HDR_SZ <= PrimTableAt(ctx)
    ensures PrimTableAt(ctx) + 128 * MAX_PARTS <= SecTableAt(ctx)
    ensures SecTableAt(ctx) + 128 * MAX_PARTS == SecAt(ctx)
    ensures SecAt(ctx) + HDR_SZ <= SecAt(ctx) + ctx.secSz <= ctx.imgSz
  {
    Layout(ctx);
  }

  lemma CutStep(ctx: ImgCtx, img: seq<byte>, s: Schem, k: nat)
    requires Validates(ctx) && Saveable(s) && |img| == ctx.imgSz && k < 4
    ensures var p, q, t := PrimHdrOf(s, ctx), SecHdrOf(s, ctx), EntsOf(s.table);
            var r := if k == 0 then HdrRegion(q) else if k == 1 then TableRegion(q.tableLba, t, GPT_ENTRY_SZ)
                     else if k == 2 then HdrRegion(p) else TableRegion(p.tableLba, t, GPT_ENTRY_SZ);
            RegionFits(ctx, |img|, r) && CutSave(ctx, img, s, k + 1) == WriteRegion(ctx, CutSave(ctx, img, s, k), r)
  {
    SaveRegionFits(s, ctx, |img|, k);
    HdrsOf(s, ctx);
  }

  /** What is on disk after "k" of the four writes. */
  ghost predicate Progress(ctx: ImgCtx, before: seq<byte>, after: seq<byte>, p: Hdr, q: Hdr, t: seq<Ent>, k: nat)
    requires Validates(ctx)
  {
    && |before| == |after|
    && (k >= 1 ==> HdrAt(ctx, after, q))
    && (k >= 2 ==> EntriesAt(after, SecTableAt(ctx), t))
    && (k >= 3 ==> HdrAt(ctx, after, p))
    && (k >= 4 ==> EntriesAt(after, PrimTableAt(ctx), t))
    && (k <= 1 ==> Agree(before, after, 0, SecAt(ctx)))
    && (k <= 2 ==> Agree(before, after, 0, SecTableAt(ctx)))
    && (k <= 3 ==> Agree(before, after, PrimTableAt(ctx), SecTableAt(ctx)))
    && (k == 0 ==> after == before)
    && Agree(before, after, 0, PrimAt(ctx))
    && Agree(before, after, PrimTableAt(ctx) + 128 * MAX_PARTS, SecTableAt(ctx))
  }

  lemma AgreeTrans(s: seq<byte>, t: seq<byte>, u: seq<byte>, a: nat, b: nat)
    requires Agree(s, t, a, b) && Agree(t, u, a, b)
    ensures Agree(s, u, a, b)
  {
  }

  lemma {:induction false} SaveProgress(ctx: ImgCtx, img: seq<byte>, s: Schem, k: nat)
    requires Validates(ctx) && Saveable(s) && |img| == ctx.imgSz && k <= 4
    ensures Progress(ctx, img, CutSave(ctx, img, s, k), PrimHdrOf(s, ctx), SecHdrOf(s, ctx), EntsOf(s.table), k)
  {
    if k > 0 {
      SaveProgress(ctx, img, s, k - 1);
      CutStep(ctx, img, s, k - 1);
      HdrsOf(s, ctx);
      var p, q, t := PrimHdrOf(s, ctx), SecHdrOf(s, ctx), EntsOf(s.table);
      ProgressStep(ctx, img, CutSave(ctx, img, s, k - 1), CutSave(ctx, img, s, k), p, q, t, k);
    }
  }

  lemma ProgressStep(ctx: ImgCtx, b: seq<byte>, c: seq<byte>, d: seq<byte>, p: Hdr, q: Hdr, t: seq<Ent>, k: nat)
    requires Validates(ctx) && 1 <= k <= 4 && Progress(ctx, b, c, p, q, t, k - 1) && |t| <= MAX_PARTS
    requires p.myLba == PRIM_LBA && q.myLba == LastLba(ctx)
    requires p.tableLba == PRIM_TABLE_LBA && q.tableLba == SecTableLba(ctx)
    requires var r := if k == 1 then HdrRegion(q) else if k == 2 then TableRegion(q.tableLba, t, GPT_ENTRY_SZ)
                      else if k == 3 then HdrRegion(p) else TableRegion(p.tableLba, t, GPT_ENTRY_SZ);
             RegionFits(ctx, |c|, r) && d == WriteRegion(ctx, c, r)
    ensures Progress(ctx, b, d, p, q, t, k)
  {
    if k == 1 {
      ProgressSecHdr(ctx, b, c, d, p, q, t);
    } else if k == 2 {
      ProgressSecTable(ctx, b, c, d, p, q, t);
    } else if k == 3 {
      ProgressPrimHdr(ctx, b, c, d, p, q, t);
    } else {
      ProgressPrimTable(ctx, b, c, d, p, q, t);
    }
  }

  lemma ProgressSecHdr(ctx: ImgCtx, b: seq<byte>, c: seq<byte>, d: seq<byte>, p: Hdr, q: Hdr, t: seq<Ent>)
    requires Validates(ctx) && Progress(ctx, b, c, p, q, t, 0) && q.myLba == LastLba(ctx)
    requires RegionFits(ctx, |c|, HdrRegion(q)) && d == WriteRegion(ctx, c, HdrRegion(q))
    ensures Progress(ctx, b, d, p, q, t, 1)
  {
    Places(ctx);
    HdrWritten(ctx, c, q);
    HdrWriteFrame(ctx, c, q, 0, SecAt(ctx));
  }

  lemma ProgressSecTable(ctx: ImgCtx, b: seq<byte>, c: seq<byte>, d: seq<byte>, p: Hdr, q: Hdr, t: seq<Ent>)
    requires Validates(ctx) && Progress(ctx, b, c, p, q, t, 1) && |t| <= MAX_PARTS
    requires q.myLba == LastLba(ctx) && q.tableLba == SecTableLba(ctx)
    requires RegionFits(ctx, |c|, TableRegion(q.tableLba, t, GPT_ENTRY_SZ))
    requires d == WriteRegion(ctx, c, TableRegion(q.tableLba, t, GPT_ENTRY_SZ))
    ensures Progress(ctx, b, d, p, q, t, 2)
  {
    Places(ctx);
    TableWritten(ctx, c, q.tableLba, t);
    TableWriteFrame(ctx, c, q.tableLba, t, 0, SecTableAt(ctx));
    TableWriteFrame(ctx, c, q.tableLba, t, SecAt(ctx), SecAt(ctx) + HDR_SZ);
    HdrStays(ctx, c, d, SecAt(ctx), SecAt(ctx) + HDR_SZ, q);
    AgreeTrans(b, c, d, 0, SecTableAt(ctx));
  }

  lemma ProgressPrimHdr(ctx: ImgCtx, b: seq<byte>, c: seq<byte>, d: seq<byte>, p: Hdr, q: Hdr, t: seq<Ent>)
    requires Validates(ctx) && Progress(ctx, b, c, p, q, t, 2) && |t| <= MAX_PARTS
    requires p.myLba == PRIM_LBA && q.myLba == LastLba(ctx)
    requires RegionFits(ctx, |c|, HdrRegion(p)) && d == WriteRegion(ctx, c, HdrRegion(p))
    ensures Progress(ctx, b, d, p, q, t, 3)
  {
    Places(ctx);
    HdrWritten(ctx, c, p);
    HdrWriteFrame(ctx, c, p, 0, PrimAt(ctx));
    HdrWriteFrame(ctx, c, p, PrimTableAt(ctx), |c|);
    HdrStays(ctx, c, d, PrimTableAt(ctx), |c|, q);
    EntriesStay(c, d, PrimTableAt(ctx), |c|, SecTableAt(ctx), t);
    AgreeTrans(b, c, d, 0, PrimAt(ctx));
    AgreeTrans(b, c, d, PrimTableAt(ctx), SecTableAt(ctx));
  }

  lemma ProgressPrimTable(ctx: ImgCtx, b: seq<byte>, c: seq<byte>, d: seq<byte>, p: Hdr, q: Hdr, t: seq<Ent>)
    requires Validates(ctx) && Progress(ctx, b, c, p, q, t, 3) && |t| <= MAX_PARTS
    requires p.myLba == PRIM_LBA && q.myLba == LastLba(ctx) && p.tableLba == PRIM_TABLE_LBA
    requires RegionFits(ctx, |c|, TableRegion(p.tableLba, t, GPT_ENTRY_SZ))
    requires d == WriteRegion(ctx, c, TableRegion(p.tableLba, t, GPT_ENTRY_SZ))
    ensures Progress(ctx, b, d, p, q, t, 4)
  {
    Places(ctx);
    TableWritten(ctx, c, p.tableLba, t);
    TableWriteFrame(ctx, c, p.tableLba, t, 0, PrimTableAt(ctx));
    TableWriteFrame(ctx, c, p.tableLba, t, PrimTableAt(ctx) + 128 * MAX_PARTS, |c|);
    HdrStays(ctx, c, d, 0, PrimTableAt(ctx), p);
    HdrStays(ctx, c, d, PrimTableAt(ctx) + 128 * MAX_PARTS, |c|, q);
    EntriesStay(c, d, PrimTableAt(ctx) + 128 * MAX_PARTS, |c|, SecTableAt(ctx), t);
    AgreeTrans(b, c, d, 0, PrimAt(ctx));
    AgreeTrans(b, c, d, PrimTableAt(ctx) + 128 * MAX_PARTS, SecTableAt(ctx));
  }
}
