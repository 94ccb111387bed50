/**
  GPT as a partitioning scheme: converting, loading, saving, creating and
  removing it (libs/libpartman/src/gpt.c:318-326, 736-971).
 */
module GptScheme {
  import opened Words
  import opened Memutils
  import opened Crc32
  import opened Guids
  import opened ImgCtxs
  import opened Schemes
  import opened GptFormat
  import opened GptTable
  import opened GptStore
  import opened GptRecovery
  import opened GptTheorems
  import opened GptCodec
  import opened GptProgram

  //////////////////////////////////////////////////////////////////////////////
  // New schemes and partitions
  //////////////////////////////////////////////////////////////////////////////

  /** The default partition type, "Linux filesystem". */
  function DefaultType(): Guid {
    GuidFields(0x0FC63DAF, 0x8483, 0x4772, 0x8E, 0x79, [0x3D, 0x69, 0xD8, 0x47, 0x7D, 0xE4])
  }

  function NewGpt(ctx: ImgCtx, id: Guid): Schem
    requires Validates(ctx)
  {
    Layout(ctx);
    Schem(Gpt, 0, id, PRIM_TABLE_LBA + TableSecs(ctx), SecTableLba(ctx) - 1, NoParts(MAX_PARTS))
  }

  function NewGptPart(unique: Guid): Part {
    NoPart().(uniqueGuid := unique, typeGuid := DefaultType())
  }

  /** The usable range of a new scheme lies strictly between the two tables and is not empty. */
  lemma NewGptUsable(ctx: ImgCtx, id: Guid)
    requires Validates(ctx)
    ensures var s := NewGpt(ctx, id);
            && s.first <= s.last
            && PrimTableAt(ctx) + 128 * MAX_PARTS == LbaToByte(ctx, s.first)
            && LbaToByte(ctx, s.last) + ctx.secSz == SecTableAt(ctx)
            && s.kind == Gpt && s.idGuid == id && |s.table| == 128 && NoneUsed(s)
            && Storable(s) && Safe(s)
  {
    Layout(ctx);
    var s := NewGpt(ctx, id);
    LbaSum(ctx, s.last, 1);
    forall i | 0 <= i < |s.table|
      ensures !IsUsed(Gpt, s.table[i])
    {
    }
  }

  method InitGpt(s: Scheme, ctx: ImgCtx, id: Guid)
    requires Validates(ctx)
    modifies s
    ensures s.Value() == NewGpt(ctx, id)
  {
    Layout(ctx);
    s.kind := Gpt;
    s.idI := 0;
    s.first := PRIM_TABLE_LBA + TableSecs(ctx);
    s.last := SecTableLba(ctx) - 1;
    s.idGuid := id;
    s.table := NoParts(MAX_PARTS);
  }

  //////////////////////////////////////////////////////////////////////////////
  // Save
  //////////////////////////////////////////////////////////////////////////////

  method TableFromSchem(s: Scheme, table: array<Ent>)
    requires |s.table| <= table.Length && forall i :: 0 <= i < table.Length ==> table[i] == NoEnt()
    modifies table
    ensures table[..|s.table|] == EntsOf(s.table)
  {
    for i := 0 to |s.table|
      invariant forall j :: 0 <= j < i ==> table[j] == EntOf(s.table[j])
      invariant forall j :: i <= j < table.Length ==> table[j] == NoEnt()
    {
      var p := s.table[i];
      if p.typeGuid == ZERO_GUID {
        continue;
      }
      table[i] := EntFields(p.typeGuid, p.uniqueGuid, p.startLba, p.endLba, p.attr, p.name);
    }
  }

  lemma LastFits(ctx: ImgCtx)
    requires Validates(ctx)
    ensures EndLba(ctx) < 0x1_0000_0000_0000_0000
  {
    Layout(ctx);
  }

  lemma PrimHdrIs(v: Schem, ctx: ImgCtx, crc: u32)
    requires Validates(ctx) && Saveable(v) && crc == TableCrc(EntsOf(v.table))
    requires EndLba(ctx) < 0x1_0000_0000_0000_0000
    ensures var h := Hdr(GPT_REV, HDR_SZ, 0, PRIM_LBA, EndLba(ctx), v.first, v.last, v.idGuid, PRIM_TABLE_LBA,
                         |v.table|, GPT_ENTRY_SZ, crc);
            h.(hdrCrc := HdrCrc(h)) == PrimHdrOf(v, ctx)
  {
  }

  method PrimHdrFromSchem(t: Table, ctx: ImgCtx, s: Scheme, table: array<Ent>, ghost v: Schem) returns (h: Hdr)
    requires t.Valid() && Validates(ctx) && v == s.Value() && Saveable(v)
    requires |s.table| <= table.Length && table[..|s.table|] == EntsOf(v.table)
    modifies t.entries
    ensures t.Valid() && h == PrimHdrOf(v, ctx)
  {
    var crc := TableCrcCreate(t, table, |s.table|);
    LastFits(ctx);
    PrimHdrIs(v, ctx, crc);
    h := Hdr(GPT_REV, HDR_SZ, 0, PRIM_LBA, EndLba(ctx), s.first, s.last, s.idGuid, PRIM_TABLE_LBA,
             |s.table|, GPT_ENTRY_SZ, crc);
    crc := HdrCrcCreate(t, h);
    h := h.(hdrCrc := crc);
  }

  method FromSchem(t: Table, ctx: ImgCtx, s: Scheme, g: GptBuf, ghost v: Schem)
    requires t.Valid() && Validates(ctx) && v == s.Value() && Saveable(v) && g.Valid()
    requires forall i :: 0 <= i < MAX_PARTS ==> g.tablePrim[i] == NoEnt()
    modifies g, g.tablePrim, g.tableSec, t.entries
    ensures t.Valid() && g.Valid()
    ensures g.hdrPrim.entryCnt <= MAX_PARTS && g.hdrSec.entryCnt <= MAX_PARTS && g.Value() == GptFromSchem(v, ctx)
  {
    TableFromSchem(s, g.tablePrim);
    var h := PrimHdrFromSchem(t, ctx, s, g.tablePrim, v);
    g.hdrPrim := h;
    RestoreSec(t, ctx, g, v);
  }

  /** The secondary pair of a new GPT is made from the primary one. */
  method RestoreSec(t: Table, ctx: ImgCtx, g: GptBuf, ghost v: Schem)
    requires t.Valid() && Validates(ctx) && Saveable(v) && g.Valid()
    requires g.hdrPrim == PrimHdrOf(v, ctx) && g.tablePrim[..|v.table|] == EntsOf(v.table)
    modifies g, g.tablePrim, g.tableSec, t.entries
    ensures t.Valid() && g.Valid()
    ensures g.hdrPrim.entryCnt <= MAX_PARTS && g.hdrSec.entryCnt <= MAX_PARTS && g.Value() == GptFromSchem(v, ctx)
  {
    SecFromPrim(v, ctx);
    HdrsOf(v, ctx);
    Layout(ctx);
    assert g.tablePrim[..][..|v.table|] == EntsOf(v.table);
    g.Restore(t, SecTableLba(ctx), false);
    assert g.tablePrim[..][..|v.table|] == EntsOf(v.table);
  }

  lemma SaveIsAll(ctx: ImgCtx, img: seq<byte>, s: Schem, g: GptValue)
    requires Validates(ctx) && Saveable(s) && |img| == ctx.imgSz && g == GptFromSchem(s, ctx)
    ensures AllFit(ctx, |img|, g) && Save(ctx, img, s) == SaveAll(ctx, img, g)
  {
    forall k | 0 <= k < 4
      ensures RegionFits(ctx, |img|, SaveRegion(g, k))
    {
      SaveRegionFits(s, ctx, |img|, k);
    }
    var zero: nat, one: nat, two: nat, three: nat := 0, 1, 2, 3;
    assert CutSave(ctx, img, s, one) == WriteRegion(ctx, CutSave(ctx, img, s, zero), SaveRegion(g, zero));
    assert CutSave(ctx, img, s, two) == WriteRegion(ctx, CutSave(ctx, img, s, one), SaveRegion(g, one));
    assert CutSave(ctx, img, s, three) == WriteRegion(ctx, CutSave(ctx, img, s, two), SaveRegion(g, two));
  }

  method SaveGpt(t: Table, ctx: ImgCtx, img: array<byte>, s: Scheme)
    requires t.Valid() && Validates(ctx) && Saveable(s.Value()) && img.Length == ctx.imgSz
    modifies img, t.entries
    ensures t.Valid()
    ensures img[..] == Save(ctx, old(img[..]), s.Value())
  {
    var g := new GptBuf();
    FromSchem(t, ctx, s, g, s.Value());
    SaveBuilt(ctx, img, g, s.Value());
  }

  method SaveBuilt(ctx: ImgCtx, img: array<byte>, g: GptBuf, ghost v: Schem)
    requires Validates(ctx) && Saveable(v) && img.Length == ctx.imgSz && g.Valid()
    requires g.hdrPrim.entryCnt <= MAX_PARTS && g.hdrSec.entryCnt <= MAX_PARTS && g.Value() == GptFromSchem(v, ctx)
    modifies img
    ensures img[..] == Save(ctx, old(img[..]), v)
  {
    ghost var built := GptFromSchem(v, ctx);
    SaveIsAll(ctx, img[..], v, built);
    g.Save(ctx, img, built);
  }

  //////////////////////////////////////////////////////////////////////////////
  // Load
  //////////////////////////////////////////////////////////////////////////////

  method ToSchem(s: Scheme, g: GptBuf)
    requires g.Valid() && g.hdrPrim.entryCnt <= MAX_PARTS && s.idI == 0
    modifies s
    ensures s.Value() == SchemOf(g.hdrPrim, g.tablePrim[..g.hdrPrim.entryCnt])
  {
    s.kind := Gpt;
    s.idGuid := g.hdrPrim.diskGuid;
    s.first := g.hdrPrim.firstUsable;
    s.last := g.hdrPrim.lastUsable;
    var n := g.hdrPrim.entryCnt;
    s.table := NoParts(n);
    for i := 0 to n
      invariant s.kind == Gpt && s.idI == 0 && s.idGuid == g.hdrPrim.diskGuid
      invariant s.first == g.hdrPrim.firstUsable && s.last == g.hdrPrim.lastUsable
      invariant |s.table| == n
      invariant forall j :: 0 <= j < i ==> s.table[j] == PartOf(g.tablePrim[j])
      invariant forall j :: i <= j < n ==> s.table[j] == NoPart()
    {
      var e := g.tablePrim[i];
      var zero := GuidIsZero(e.typeGuid);
      if !zero {
        s.table := s.table[i := PartFields(0, e.typeGuid, e.uniqueGuid, e.startLba, e.endLba, e.attr, e.name, 0)];
      }
    }
  }

  method LoadGpt(t: Table, ctx: ImgCtx, img: array<byte>, s: Scheme) returns (r: LoadRes)
    requires t.Valid() && Validates(ctx) && s.idI == 0
    modifies s, t.entries
    ensures t.Valid()
    ensures match LoadSchem(ctx, img[..])
            case LoadOk(v) => r == Loaded && s.Value() == v
            case LoadNotFound => r == NotFound
            case LoadFatal => r == Fatal
  {
    var g := new GptBuf();
    r := g.Load(t, ctx, img);
    if r == Loaded {
      ToSchem(s, g);
    }
  }

  //////////////////////////////////////////////////////////////////////////////
  // Remove
  //////////////////////////////////////////////////////////////////////////////

  method EraseSig(img: array<byte>, p: nat)
    requires p + 8 <= img.Length
    modifies img
    ensures img[..] == Splice(old(img[..]), p, Zeros(8))
  {
    WriteBytes(img, p, Zeros(8));
  }

  function Removed(ctx: ImgCtx, img: seq<byte>): (t: seq<byte>)
    requires Validates(ctx) && |img| == ctx.imgSz
    ensures |t| == |img|
  {
    Places(ctx);
    Splice(Splice(img, PrimAt(ctx), Zeros(8)), SecAt(ctx), Zeros(8))
  }

  method RemoveGpt(ctx: ImgCtx, img: array<byte>)
    requires Validates(ctx) && img.Length == ctx.imgSz
    modifies img
    ensures img[..] == Removed(ctx, old(img[..]))
  {
    Places(ctx);
    Layout(ctx);
    EraseSig(img, LbaToByte(ctx, PRIM_LBA));
    EraseSig(img, LbaToByte(ctx, LastLba(ctx)));
  }

  /** Neither header position holds the signature. */
  ghost predicate Unsigned(ctx: ImgCtx, img: seq<byte>)
    requires Validates(ctx)
  {
    Places(ctx);
    |img| == ctx.imgSz && img[PrimAt(ctx)..PrimAt(ctx) + 8] != GPT_SIG && img[SecAt(ctx)..SecAt(ctx) + 8] != GPT_SIG
  }

  lemma UnsignedInvalid(ctx: ImgCtx, img: seq<byte>)
    requires Validates(ctx) && Unsigned(ctx, img)
    ensures LastLba(ctx) >= 0 && HdrMaps(ctx, |img|, PRIM_LBA) && HdrMaps(ctx, |img|, LastLba(ctx))
    ensures !HdrValid(HdrSlice(ctx, img, PRIM_LBA), PRIM_LBA)
    ensures !HdrValid(HdrSlice(ctx, img, LastLba(ctx)), LastLba(ctx))
  {
    Places(ctx);
    Layout(ctx);
    NoSigAt(ctx, img, PRIM_LBA, PrimAt(ctx));
    NoSigAt(ctx, img, LastLba(ctx), SecAt(ctx));
  }

  lemma NoSigAt(ctx: ImgCtx, img: seq<byte>, lba: nat, o: nat)
    requires o == LbaToByte(ctx, lba) && o + HDR_SZ <= o + ctx.secSz <= |img| && img[o..o + 8] != GPT_SIG
    ensures HdrMaps(ctx, |img|, lba) && !HdrValid(HdrSlice(ctx, img, lba), lba)
  {
    SliceSlice(img, o, HDR_SZ, 0, 8);
    var s := img[o..o + HDR_SZ];
    assert s[..8] == s[0..8];
  }

  /** Without the signatures nothing is found, whatever else the image holds. */
  lemma UnsignedNotFound(ctx: ImgCtx, img: seq<byte>)
    requires Validates(ctx) && Unsigned(ctx, img)
    ensures GptLoad(ctx, img) == LoadNotFound
  {
    UnsignedInvalid(ctx, img);
    Layout(ctx);
    assert LoadPair(ctx, img, PRIM_LBA) == PairHdrInv;
    assert LoadPair(ctx, img, LastLba(ctx)) == PairHdrInv;
  }

  lemma RemovedUnsigned(ctx: ImgCtx, img: seq<byte>)
    requires Validates(ctx) && |img| == ctx.imgSz
    ensures Unsigned(ctx, Removed(ctx, img))
    ensures Agree(img, Removed(ctx, img), 0, PrimAt(ctx))
  {
    Places(ctx);
    var p, q := PrimAt(ctx), SecAt(ctx);
    var a := Splice(img, p, Zeros(8));
    var b := Splice(a, q, Zeros(8));
    assert b[p] == 0 && b[q] == 0;
    assert b[p..p + 8][0] == 0 && b[q..q + 8][0] == 0;
  }

  /** After removal no GPT is found on any image. */
  lemma RemovedNotFound(ctx: ImgCtx, img: seq<byte>)
    requires Validates(ctx) && |img| == ctx.imgSz
    ensures GptLoad(ctx, Removed(ctx, img)) == LoadNotFound
  {
    RemovedUnsigned(ctx, img);
    UnsignedNotFound(ctx, Removed(ctx, img));
  }
}
