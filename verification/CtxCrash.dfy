/**
  A save of MBR and GPT that is cut short: the MBR is written first, then the
  four regions of the GPT (libs/libpartman/src/schem.c:218-268).
 */
module CtxCrash {
  import opened Words
  import opened Memutils
  import opened ImgCtxs
  import opened Schemes
  import opened GptFormat
  import opened GptTable
  import opened GptStore
  import opened GptRecovery
  import opened GptTheorems
  import opened GptScheme
  import opened GptCrashes
  import opened CtxModel
  import M = MbrScheme

  /** The image after the MBR and "k" of the four regions of the GPT were written. */
  function CutAfterMbr(ctx: ImgCtx, m: Schem, g: Schem, img: seq<byte>, k: nat): (t: seq<byte>)
    requires Validates(ctx) && |img| == ctx.imgSz && k <= 4 && |m.table| == M.MBR_PARTS && Saveable(g)
    ensures |t| == |img|
  {
    CutSave(ctx, M.SaveImg(ctx, img, m), g, k)
  }

  /** All of these writes make a save; with both schemes in memory nothing is removed. */
  lemma CutNowhere(ctx: ImgCtx, c: Ctx, img: seq<byte>)
    requires Validates(ctx) && |img| == ctx.imgSz && Shaped(ctx, c) && c.mbr.Some? && c.gpt.Some?
    ensures CutAfterMbr(ctx, c.mbr.value, c.gpt.value, img, 4) == SaveCtx(ctx, c, img)
  {
  }

  ghost predicate Intact(ctx: ImgCtx, img: seq<byte>, s: Schem)
    requires Validates(ctx) && Saveable(s)
  {
    PrimIntact(ctx, img, s) && SecIntact(ctx, img, s)
  }

  /** Writing the MBR leaves both GPT pairs in place. */
  lemma IntactStays(ctx: ImgCtx, img: seq<byte>, t: seq<byte>, s: Schem)
    requires Validates(ctx) && Saveable(s) && Agree(img, t, 512, |img|) && Intact(ctx, img, s)
    ensures Intact(ctx, t, s)
  {
    Places(ctx);
    HdrsOf(s, ctx);
    HdrStays(ctx, img, t, 512, |img|, PrimHdrOf(s, ctx));
    HdrStays(ctx, img, t, 512, |img|, SecHdrOf(s, ctx));
    EntriesStay(img, t, 512, |img|, PrimTableAt(ctx), EntsOf(s.table));
    EntriesStay(img, t, 512, |img|, SecTableAt(ctx), EntsOf(s.table));
  }

  /** After a save with both schemes in memory, both pairs are in place. */
  lemma SavedIntact(ctx: ImgCtx, c: Ctx, img: seq<byte>)
    requires Validates(ctx) && |img| == ctx.imgSz && Shaped(ctx, c) && c.mbr.Some? && c.gpt.Some?
    ensures Intact(ctx, SaveCtx(ctx, c, img), c.gpt.value)
  {
    Saved(ctx, PutMbr(ctx, c.mbr, RemovePass(ctx, c, img)), c.gpt.value);
  }

  lemma CutKeepsMbr(ctx: ImgCtx, img: seq<byte>, s: Schem, k: nat)
    requires Validates(ctx) && Saveable(s) && |img| == ctx.imgSz && k <= 4
    ensures FoundMbr(ctx, CutSave(ctx, img, s, k)) == FoundMbr(ctx, img)
  {
    SaveProgress(ctx, img, s, k);
    Places(ctx);
    MbrStays(img, CutSave(ctx, img, s, k));
  }

  lemma MbrWriteIntact(ctx: ImgCtx, m: Schem, prev: Schem, img: seq<byte>) returns (a: seq<byte>)
    requires Validates(ctx) && |m.table| == M.MBR_PARTS && Saveable(prev) && Intact(ctx, img, prev)
    ensures a == M.SaveImg(ctx, img, m) && Intact(ctx, a, prev)
  {
    a := M.SaveImg(ctx, img, m);
    MbrWriteAgrees(img, M.MbrOf(m, ctx));
    IntactStays(ctx, img, a, prev);
  }

  /** The GPT that is found after the first write and "k" more. */
  lemma GptFound(ctx: ImgCtx, a: seq<byte>, prev: Schem, g: Schem, k: nat, cut: seq<byte>)
    requires Validates(ctx) && Storable(prev) && Storable(g) && Intact(ctx, a, prev) && k <= 4
    requires Harmless(ctx, a, g) && cut == CutSave(ctx, a, g, k)
    ensures LoadSchem(ctx, cut) == LoadOk(if k <= 2 then Cleaned(prev) else Cleaned(g))
  {
    SavedNotFatal(ctx, a, prev);
    AtomicAtIff(ctx, a, prev, g, k);
  }

  /** What the program has in memory when it finds these two. */
  lemma FoundLoads(ctx: ImgCtx, img: seq<byte>, m: Schem, g: Schem, mbrId: u32)
    requires Validates(ctx) && |img| == ctx.imgSz && M.MbrShaped(m, ctx) && Storable(g)
    requires FoundMbr(ctx, img) == Some(M.CleanedMbr(m)) && LoadSchem(ctx, img) == LoadOk(Cleaned(g))
    ensures LoadCtx(ctx, img, mbrId) == Some(Reloaded(ctx, Ctx(Some(m), Some(g), true, true), mbrId))
  {
    AssembleSaved(ctx, Ctx(Some(m), Some(g), true, true), mbrId);
  }

  lemma MbrUpdated(ctx: ImgCtx, m: Schem, g: Schem, img: seq<byte>, k: nat)
    requires Validates(ctx) && |img| == ctx.imgSz && M.MbrShaped(m, ctx) && M.Fits(m) && Saveable(g) && k <= 4
    ensures FoundMbr(ctx, CutAfterMbr(ctx, m, g, img, k)) == Some(M.CleanedMbr(m))
  {
    M.MbrRoundTrip(ctx, img, m);
    CutKeepsMbr(ctx, M.SaveImg(ctx, img, m), g, k);
  }

  /** Writing the MBR leaves what is at the primary table. */
  lemma MbrWriteHarmless(ctx: ImgCtx, m: Schem, g: Schem, img: seq<byte>)
    requires Validates(ctx) && |img| == ctx.imgSz && |m.table| == M.MBR_PARTS && Saveable(g) && Harmless(ctx, img, g)
    ensures Harmless(ctx, M.SaveImg(ctx, img, m), g)
  {
    Places(ctx);
    MbrWriteAgrees(img, M.MbrOf(m, ctx));
    ResidueStays(ctx, img, M.SaveImg(ctx, img, m), |g.table|);
  }

  lemma GptUpdated(ctx: ImgCtx, m: Schem, prev: Schem, g: Schem, img: seq<byte>, k: nat)
    requires Validates(ctx) && |m.table| == M.MBR_PARTS && Storable(prev) && Storable(g) && k <= 4
    requires Intact(ctx, img, prev) && Harmless(ctx, img, g)
    ensures LoadSchem(ctx, CutAfterMbr(ctx, m, g, img, k)) == LoadOk(if k <= 2 then Cleaned(prev) else Cleaned(g))
  {
    var a := MbrWriteIntact(ctx, m, prev, img);
    MbrWriteHarmless(ctx, m, g, img);
    GptFound(ctx, a, prev, g, k, CutSave(ctx, a, g, k));
  }

  /**
    Updates are atomic for each scheme.  "c" was saved, and saving the schemes "m"
    and "g" over it is cut after the MBR and "k" of the four GPT writes.  Then the
    new MBR is found with exactly the old or the new GPT, changing over at the
    write of the primary header, and the program starts with these two.
   */
  lemma UpdateAtomic(ctx: ImgCtx, c: Ctx, m: Schem, g: Schem, img: seq<byte>, k: nat, mbrId: u32)
    requires Validates(ctx) && Inv(ctx, c, img) && c.mbr.Some? && c.gpt.Some?
    requires M.MbrShaped(m, ctx) && M.Fits(m) && Storable(g) && k <= 4
    requires Harmless(ctx, SaveCtx(ctx, c, img), g)
    ensures var cut := CutAfterMbr(ctx, m, g, SaveCtx(ctx, c, img), k);
            var r := if k <= 2 then c.gpt.value else g;
            && FoundMbr(ctx, cut) == Some(M.CleanedMbr(m)) && LoadSchem(ctx, cut) == LoadOk(Cleaned(r))
            && LoadCtx(ctx, cut, mbrId) == Some(Reloaded(ctx, Ctx(Some(m), Some(r), true, true), mbrId))
  {
    SavedIntact(ctx, c, img);
    MbrUpdated(ctx, m, g, SaveCtx(ctx, c, img), k);
    GptUpdated(ctx, m, c.gpt.value, g, SaveCtx(ctx, c, img), k);
    FoundLoads(ctx, CutAfterMbr(ctx, m, g, SaveCtx(ctx, c, img), k), m, if k <= 2 then c.gpt.value else g, mbrId);
  }

  //////////////////////////////////////////////////////////////////////////////
  // From MBR to GPT
  //////////////////////////////////////////////////////////////////////////////

  /**
    The primary pair is invalid: there is no valid header at sector 1, or there is
    one whose table lies in front of the secondary table.
   */
  ghost predicate NoPrim(ctx: ImgCtx, img: seq<byte>)
    requires Validates(ctx)
  {
    && |img| == ctx.imgSz && Invalid(LoadPair(ctx, img, PRIM_LBA))
    && (LoadPair(ctx, img, PRIM_LBA).PairTableInv? ==>
          var h := HdrFromBytes(HdrSlice(ctx, img, PRIM_LBA));
          TableFits(SecTableAt(ctx), LbaToByte(ctx, h.tableLba), h.entryCnt, h.entrySz))
  }

  /** So it is where no signatures are. */
  lemma UnsignedNoPrim(ctx: ImgCtx, img: seq<byte>)
    requires Validates(ctx) && Unsigned(ctx, img)
    ensures NoPrim(ctx, img)
  {
    UnsignedInvalid(ctx, img);
  }

  /** Then it stays invalid while the secondary pair is written. */
  lemma NoPrimLost(ctx: ImgCtx, img: seq<byte>)
    requires Validates(ctx) && NoPrim(ctx, img)
    ensures PrimLost(ctx, img)
  {
    forall t: seq<byte> | Agree(img, t, 0, SecTableAt(ctx))
      ensures Invalid(LoadPair(ctx, t, PRIM_LBA))
    {
      NoPrimKept(ctx, img, t);
    }
  }

  lemma NoPrimKept(ctx: ImgCtx, img: seq<byte>, t: seq<byte>)
    requires Validates(ctx) && NoPrim(ctx, img) && Agree(img, t, 0, SecTableAt(ctx))
    ensures Invalid(LoadPair(ctx, t, PRIM_LBA))
  {
    Places(ctx);
    AgreeSlice(img, t, 0, SecTableAt(ctx), PrimAt(ctx), PrimAt(ctx) + HDR_SZ);
    FrontPairStays(ctx, img, t, PRIM_LBA, HdrSlice(ctx, img, PRIM_LBA), SecTableAt(ctx));
  }

  lemma FrontPairStays(ctx: ImgCtx, img: seq<byte>, t: seq<byte>, lba: nat, s: seq<byte>, end: nat)
    requires ctx.secSz > 0 && HdrMaps(ctx, |img|, lba) && Agree(img, t, 0, end) && end <= |img|
    requires s == HdrSlice(ctx, img, lba) == HdrSlice(ctx, t, lba)
    requires HdrValid(s, lba) ==>
               var h := HdrFromBytes(s);
               TableFits(end, LbaToByte(ctx, h.tableLba), h.entryCnt, h.entrySz)
    ensures LoadPair(ctx, t, lba) == LoadPair(ctx, img, lba)
  {
    if HdrValid(s, lba) {
      PairTableStays(ctx, img, t, 0, end, HdrFromBytes(s));
    }
    LoadPairBySlice(ctx, img, t, lba, s);
  }

  /** And it stays invalid when the MBR is written. */
  lemma NoPrimAfterMbr(ctx: ImgCtx, img: seq<byte>, t: seq<byte>)
    requires Validates(ctx) && NoPrim(ctx, img) && TablesClear(ctx, img) && Agree(img, t, 512, |img|)
    ensures NoPrim(ctx, t)
  {
    Layout(ctx);
    PairStays(ctx, img, t, PRIM_LBA);
    SliceStays(ctx, img, t, PRIM_LBA);
  }

  /** Whether a pair is fatal is decided by its header alone. */
  lemma FatalStays(ctx: ImgCtx, img: seq<byte>, t: seq<byte>)
    requires Validates(ctx) && |img| == ctx.imgSz && Agree(img, t, 0, SecTableAt(ctx))
    ensures LoadPair(ctx, t, PRIM_LBA).PairFatal? == LoadPair(ctx, img, PRIM_LBA).PairFatal?
  {
    Places(ctx);
    AgreeSlice(img, t, 0, SecTableAt(ctx), PrimAt(ctx), PrimAt(ctx) + HDR_SZ);
    FatalBySlice(ctx, img, t, PRIM_LBA, HdrSlice(ctx, img, PRIM_LBA));
  }

  lemma FatalBySlice(ctx: ImgCtx, img: seq<byte>, t: seq<byte>, lba: nat, s: seq<byte>)
    requires ctx.secSz > 0 && |img| == |t| && HdrMaps(ctx, |img|, lba)
    requires s == HdrSlice(ctx, img, lba) == HdrSlice(ctx, t, lba)
    ensures LoadPair(ctx, t, lba).PairFatal? == LoadPair(ctx, img, lba).PairFatal?
  {
    if HdrValid(s, lba) {
      TableFatal(ctx, img, t, HdrFromBytes(s));
    }
  }

  lemma TableFatal(ctx: ImgCtx, img: seq<byte>, t: seq<byte>, h: Hdr)
    requires ctx.secSz > 0 && |img| == |t|
    ensures LoadPairTable(ctx, t, h).PairFatal? == LoadPairTable(ctx, img, h).PairFatal?
  {
  }

  /** What a pair that loads from sector 1 gives. */
  function ByPrimary(ctx: ImgCtx, img: seq<byte>, prim: PairLoad): Load<Schem>
    requires ctx.secSz > 0 && prim.PairOk?
  {
    if LoadPair(ctx, img, prim.hdr.altLba).PairFatal? then LoadFatal else LoadOk(SchemOf(prim.hdr, prim.table))
  }

  /**
    What is found when saving a GPT on an image without one is cut: nothing before
    the first region write; then what the secondary pair holds; and what an invalid
    pair at sector 1 holds, should writing the secondary pair make it valid.
   */
  function ConvertLoads(ctx: ImgCtx, a: seq<byte>, cut: seq<byte>, g: Schem, k: nat): Load<Schem>
    requires Validates(ctx) && |a| == ctx.imgSz && Saveable(g)
  {
    var prim := LoadPair(ctx, cut, PRIM_LBA);
    if k == 0 then LoadNotFound
    else if k <= 2 && prim.PairOk? then ByPrimary(ctx, cut, prim)
    else CutLoadsLost(ctx, a, g, k)
  }

  /**
    A new GPT on an image without one.  Its save is cut after the protective MBR
    "m" and "k" GPT writes.  The new MBR is found from the first write on.
   */
  lemma ConvertToGpt(ctx: ImgCtx, c: Ctx, m: Schem, g: Schem, img: seq<byte>, k: nat)
    requires Validates(ctx) && Inv(ctx, c, img) && !c.gptInImg
    requires M.MbrShaped(m, ctx) && M.Fits(m) && Storable(g) && k <= 4
    ensures var cut := CutAfterMbr(ctx, m, g, img, k);
            && FoundMbr(ctx, cut) == Some(M.CleanedMbr(m))
            && LoadSchem(ctx, cut) == ConvertLoads(ctx, M.SaveImg(ctx, img, m), cut, g, k)
  {
    MbrUpdated(ctx, m, g, img, k);
    ConvertGpt(ctx, img, M.SaveImg(ctx, img, m), M.MbrOf(m, ctx), g, k);
  }

  lemma ConvertGpt(ctx: ImgCtx, img: seq<byte>, a: seq<byte>, m: M.Mbr, g: Schem, k: nat)
    requires Validates(ctx) && |img| == ctx.imgSz && TablesClear(ctx, img) && GptLoad(ctx, img) == LoadNotFound
    requires a == M.Written(img, m) && Storable(g) && k <= 4
    ensures LoadSchem(ctx, CutSave(ctx, a, g, k)) == ConvertLoads(ctx, a, CutSave(ctx, a, g, k), g, k)
  {
    MbrWriteAgrees(img, m);
    NoGptStays(ctx, img, a);
    CutOnNone(ctx, a, g, k);
  }

  lemma CutOnNone(ctx: ImgCtx, a: seq<byte>, g: Schem, k: nat)
    requires Validates(ctx) && |a| == ctx.imgSz && GptLoad(ctx, a) == LoadNotFound && Storable(g) && k <= 4
    ensures LoadSchem(ctx, CutSave(ctx, a, g, k)) == ConvertLoads(ctx, a, CutSave(ctx, a, g, k), g, k)
  {
    var cut := CutSave(ctx, a, g, k);
    var prim := LoadPair(ctx, cut, PRIM_LBA);
    if 1 <= k <= 2 {
      SaveProgress(ctx, a, g, k);
      NotFoundPairs(ctx, LoadPair(ctx, a, PRIM_LBA), a);
      FatalStays(ctx, a, cut);
    }
    if 1 <= k <= 2 && prim.PairOk? {
      LoadsByPrim(ctx, cut, prim.hdr, prim.table);
    } else {
      CutFromInvalid(ctx, a, g, k);
    }
  }

  /** On an image without signatures only the secondary pair counts until the primary header is written. */
  lemma ConvertUnsigned(ctx: ImgCtx, m: Schem, g: Schem, img: seq<byte>, k: nat)
    requires Validates(ctx) && Unsigned(ctx, img)
    requires M.MbrShaped(m, ctx) && M.Fits(m) && Storable(g) && k <= 4
    ensures var cut := CutAfterMbr(ctx, m, g, img, k);
            && FoundMbr(ctx, cut) == Some(M.CleanedMbr(m))
            && LoadSchem(ctx, cut) == CutLoadsLost(ctx, M.SaveImg(ctx, img, m), g, k)
            && (k == 0 ==> LoadSchem(ctx, cut) == LoadNotFound)
  {
    MbrUpdated(ctx, m, g, img, k);
    UnsignedGpt(ctx, img, M.SaveImg(ctx, img, m), M.MbrOf(m, ctx), g, k);
  }

  lemma UnsignedGpt(ctx: ImgCtx, img: seq<byte>, a: seq<byte>, m: M.Mbr, g: Schem, k: nat)
    requires Validates(ctx) && Unsigned(ctx, img) && a == M.Written(img, m) && Storable(g) && k <= 4
    ensures LoadSchem(ctx, CutSave(ctx, a, g, k)) == CutLoadsLost(ctx, a, g, k)
    ensures k == 0 ==> LoadSchem(ctx, CutSave(ctx, a, g, k)) == LoadNotFound
  {
    UnsignedClear(ctx, img);
    UnsignedNotFound(ctx, img);
    MbrWriteAgrees(img, m);
    NoGptStays(ctx, img, a);
    UnsignedNoPrim(ctx, img);
    NoPrimAfterMbr(ctx, img, a);
    NoPrimLost(ctx, a);
    CutFromLost(ctx, a, g, k);
  }

  //////////////////////////////////////////////////////////////////////////////
  // From GPT to MBR
  //////////////////////////////////////////////////////////////////////////////

  /** The image after "k" of the three writes: both signatures erased, then the MBR. */
  function CutToMbr(ctx: ImgCtx, m: Schem, img: seq<byte>, k: nat): (t: seq<byte>)
    requires Validates(ctx) && |img| == ctx.imgSz && |m.table| == M.MBR_PARTS
    ensures |t| == |img|
  {
    Places(ctx);
    if k == 0 then img
    else if k == 1 then Splice(img, PrimAt(ctx), Zeros(8))
    else if k == 2 then Removed(ctx, img)
    else M.SaveImg(ctx, Removed(ctx, img), m)
  }

  /** All three are a save with a GPT in the image and an MBR alone in memory. */
  lemma CutToMbrAll(ctx: ImgCtx, d: Ctx, img: seq<byte>)
    requires Validates(ctx) && Inv(ctx, d, img) && d.gptInImg && d.gpt.None?
    ensures CutToMbr(ctx, d.mbr.value, img, 3) == SaveCtx(ctx, d, img)
  {
    OnlyGptIsRemoved(ctx, d, img);
  }

  /** With one signature erased the GPT still loads, from the secondary pair. */
  lemma OneErased(ctx: ImgCtx, img: seq<byte>, g: Schem, t: seq<byte>)
    requires Validates(ctx) && Storable(g) && Intact(ctx, img, g)
    requires PrimAt(ctx) + 8 <= |img| && t == Splice(img, PrimAt(ctx), Zeros(8))
    ensures LoadSchem(ctx, t) == LoadOk(Cleaned(g)) && Agree(img, t, 0, 512)
  {
    PrimErased(ctx, img, t);
    DamagedFront(ctx, img, t, g);
    PrimaryRecovered(ctx, t, g);
  }

  lemma PrimErased(ctx: ImgCtx, img: seq<byte>, t: seq<byte>)
    requires Validates(ctx) && |img| == ctx.imgSz && PrimAt(ctx) + 8 <= |img|
    requires t == Splice(img, PrimAt(ctx), Zeros(8))
    ensures LoadPair(ctx, t, PRIM_LBA) == PairHdrInv
    ensures Agree(img, t, 0, 512) && Agree(img, t, SecTableAt(ctx), |img|)
  {
    Places(ctx);
    var p := PrimAt(ctx);
    SpliceSlice(img, p, Zeros(8));
    assert t[p..p + 8][0] == 0;
    NoSigAt(ctx, t, PRIM_LBA, p);
  }

  /**
    An MBR instead of a saved GPT.  The save is cut after "k" writes: the GPT loads
    until both signatures are gone, and then nothing but the old MBR - until the new
    one is written.
   */
  lemma ConvertToMbr(ctx: ImgCtx, m: Schem, g: Schem, img: seq<byte>, k: nat)
    requires Validates(ctx) && M.MbrShaped(m, ctx) && M.Fits(m) && Storable(g) && Intact(ctx, img, g) && k <= 3
    ensures var cut := CutToMbr(ctx, m, img, k);
            && FoundMbr(ctx, cut) == (if k <= 2 then FoundMbr(ctx, img) else Some(M.CleanedMbr(m)))
            && LoadSchem(ctx, cut) == (if k <= 1 then LoadOk(Cleaned(g)) else LoadNotFound)
  {
    if k == 0 {
      PrimLoads(ctx, img, g);
      SecLoads(ctx, img, g);
      HdrsOf(g, ctx);
      SchemLoads(ctx, img, g, GptFromSchem(g, ctx));
    } else if k == 1 {
      Places(ctx);
      OneErased(ctx, img, g, CutToMbr(ctx, m, img, k));
      MbrStays(img, CutToMbr(ctx, m, img, k));
    } else if k == 2 {
      BothErased(ctx, img);
    } else {
      MbrOverErased(ctx, m, Removed(ctx, img), img);
    }
  }

  lemma BothErased(ctx: ImgCtx, img: seq<byte>)
    requires Validates(ctx) && |img| == ctx.imgSz
    ensures LoadSchem(ctx, Removed(ctx, img)) == LoadNotFound && FoundMbr(ctx, Removed(ctx, img)) == FoundMbr(ctx, img)
  {
    Places(ctx);
    RemovedNotFound(ctx, img);
    RemovedUnsigned(ctx, img);
    MbrStays(img, Removed(ctx, img));
  }

  lemma MbrOverErased(ctx: ImgCtx, m: Schem, a: seq<byte>, img: seq<byte>)
    requires Validates(ctx) && |img| == ctx.imgSz && M.MbrShaped(m, ctx) && M.Fits(m) && a == Removed(ctx, img)
    ensures LoadSchem(ctx, M.SaveImg(ctx, a, m)) == LoadNotFound
    ensures FoundMbr(ctx, M.SaveImg(ctx, a, m)) == Some(M.CleanedMbr(m))
  {
    RemovedUnsigned(ctx, img);
    UnsignedClear(ctx, a);
    UnsignedNotFound(ctx, a);
    MbrWriteAgrees(a, M.MbrOf(m, ctx));
    NoGptStays(ctx, a, M.SaveImg(ctx, a, m));
    M.MbrRoundTrip(ctx, a, m);
  }
}
