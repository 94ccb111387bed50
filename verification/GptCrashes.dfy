/**
  Two crashes in a row.  A save that is cut right before its last region write
  leaves the new scheme in the secondary pair alone; the next save overwrites
  that pair first (libs/libpartman/src/gpt.c:441-511, 609-626).
 */
module GptCrashes {
  import opened Words
  import opened ImgCtxs
  import opened Schemes
  import opened GptFormat
  import opened GptTable
  import opened GptStore
  import opened GptRecovery
  import opened GptTheorems

  /** The new primary header is there, but the table behind it is still another one. */
  ghost predicate HalfSaved(ctx: ImgCtx, img: seq<byte>, s: Schem)
    requires Validates(ctx) && Saveable(s)
  {
    && SecIntact(ctx, img, s) && HdrAt(ctx, img, PrimHdrOf(s, ctx))
    && TableCrc(Residue(ctx, img, |s.table|)) != TableCrc(EntsOf(s.table))
  }

  /** That is what a save over another table leaves when its last write is missing. */
  lemma CutLeavesHalf(ctx: ImgCtx, before: seq<byte>, prev: Schem, next: Schem)
    requires Validates(ctx) && Storable(prev) && Storable(next) && |prev.table| == |next.table|
    requires PrimIntact(ctx, before, prev) && TableCrc(EntsOf(prev.table)) != TableCrc(EntsOf(next.table))
    ensures HalfSaved(ctx, CutSave(ctx, before, next, 3), next)
  {
    SaveProgress(ctx, before, next, 3);
    HdrsOf(next, ctx);
    ResidueIsOld(ctx, before, prev);
    ResidueStays(ctx, before, CutSave(ctx, before, next, 3), |next.table|);
  }

  lemma HalfPrim(ctx: ImgCtx, img: seq<byte>, s: Schem)
    requires Validates(ctx) && Saveable(s) && HalfSaved(ctx, img, s)
    ensures LoadPair(ctx, img, PRIM_LBA) == PairTableInv
  {
    PrimWithResidue(ctx, img, s);
  }

  /** It loads as the new scheme. */
  lemma HalfLoads(ctx: ImgCtx, img: seq<byte>, s: Schem)
    requires Validates(ctx) && Storable(s) && HalfSaved(ctx, img, s)
    ensures LoadSchem(ctx, img) == LoadOk(Cleaned(s))
  {
    HalfPrim(ctx, img, s);
    PrimaryRecovered(ctx, img, s);
  }

  /** Changes behind the primary table keep the primary half. */
  lemma HalfPrimStays(ctx: ImgCtx, img: seq<byte>, t: seq<byte>, s: Schem)
    requires Validates(ctx) && Saveable(s) && HalfSaved(ctx, img, s) && Agree(img, t, 0, SecTableAt(ctx))
    ensures |t| == ctx.imgSz && HdrAt(ctx, t, PrimHdrOf(s, ctx)) && LoadPair(ctx, t, PRIM_LBA) == PairTableInv
    ensures Residue(ctx, t, |s.table|) == Residue(ctx, img, |s.table|)
  {
    Places(ctx);
    HdrsOf(s, ctx);
    HdrStays(ctx, img, t, 0, SecTableAt(ctx), PrimHdrOf(s, ctx));
    ResidueStays(ctx, img, t, |s.table|);
    PrimWithResidue(ctx, t, s);
  }

  //////////////////////////////////////////////////////////////////////////////
  // Saving another scheme
  //////////////////////////////////////////////////////////////////////////////

  /** The entries that the loader finds at the secondary table when it expects "n" of them. */
  function SecResidue(ctx: ImgCtx, img: seq<byte>, n: nat): seq<Ent>
    requires Validates(ctx) && |img| == ctx.imgSz && n <= MAX_PARTS
  {
    TablesMap(ctx, n);
    TableFromBytes(img, LbaToByte(ctx, SecTableLba(ctx)), n, GPT_ENTRY_SZ)
  }

  lemma SecResidueStays(ctx: ImgCtx, s: seq<byte>, t: seq<byte>, n: nat)
    requires Validates(ctx) && |s| == ctx.imgSz && n <= MAX_PARTS && Agree(s, t, 0, SecAt(ctx))
    ensures SecResidue(ctx, s, n) == SecResidue(ctx, t, n)
  {
    Places(ctx);
    TablesMap(ctx, n);
    TableFitsMax(SecAt(ctx), SecTableAt(ctx), n);
    TableReadStays(s, t, 0, SecAt(ctx), SecTableAt(ctx), n, GPT_ENTRY_SZ);
  }

  /** With equally many slots, that is the table of the scheme in the secondary pair. */
  lemma SecResidueIs(ctx: ImgCtx, img: seq<byte>, s: Schem)
    requires Validates(ctx) && Storable(s) && SecIntact(ctx, img, s)
    ensures SecResidue(ctx, img, |s.table|) == EntsOf(s.table)
  {
    EntsChained(s);
    TablesMap(ctx, |s.table|);
    EntriesRead(img, LbaToByte(ctx, SecTableLba(ctx)), EntsOf(s.table));
  }

  /** A secondary header over whatever entries are there. */
  lemma SecWithResidue(ctx: ImgCtx, img: seq<byte>, s: Schem)
    requires Validates(ctx) && Saveable(s) && |img| == ctx.imgSz && HdrAt(ctx, img, SecHdrOf(s, ctx))
    ensures var rest := SecResidue(ctx, img, |s.table|);
            LoadPair(ctx, img, EndLba(ctx))
            == if TableCrc(rest) == TableCrc(EntsOf(s.table)) then PairOk(SecHdrOf(s, ctx), rest) else PairTableInv
  {
    HdrsOf(s, ctx);
    HdrLoads(ctx, img, SecHdrOf(s, ctx));
    TablesMap(ctx, |s.table|);
    LoadsAs(ctx, img, SecHdrOf(s, ctx), SecResidue(ctx, img, |s.table|));
  }

  /** What is loaded without a primary pair from a secondary header over other entries. */
  function BySecondary(ctx: ImgCtx, s: Schem, rest: seq<Ent>): Load<Schem>
    requires Validates(ctx) && Saveable(s)
  {
    if TableCrc(rest) == TableCrc(EntsOf(s.table)) then LoadOk(SchemOf(PrimHdrOf(s, ctx), rest)) else LoadNotFound
  }

  lemma LoadsBySec(ctx: ImgCtx, img: seq<byte>, s: Schem)
    requires Validates(ctx) && Saveable(s) && |img| == ctx.imgSz && Invalid(LoadPair(ctx, img, PRIM_LBA))
    requires HdrAt(ctx, img, SecHdrOf(s, ctx))
    ensures LoadSchem(ctx, img) == BySecondary(ctx, s, SecResidue(ctx, img, |s.table|))
  {
    SecWithResidue(ctx, img, s);
    var rest := SecResidue(ctx, img, |s.table|);
    if TableCrc(rest) == TableCrc(EntsOf(s.table)) {
      FromSecondary(ctx, img, SecHdrOf(s, ctx), rest);
      PrimRebuilt(s, ctx);
    } else {
      NeitherLoads(ctx, img);
    }
  }

  lemma NeitherLoads(ctx: ImgCtx, img: seq<byte>)
    requires Validates(ctx) && Invalid(LoadPair(ctx, img, PRIM_LBA)) && Invalid(LoadPair(ctx, img, EndLba(ctx)))
    ensures LoadSchem(ctx, img) == LoadNotFound
  {
  }

  //////////////////////////////////////////////////////////////////////////////
  // Without a primary pair
  //////////////////////////////////////////////////////////////////////////////

  /** The primary pair is invalid, also after any change from the secondary table on. */
  ghost predicate PrimLost(ctx: ImgCtx, img: seq<byte>)
    requires Validates(ctx)
  {
    |img| == ctx.imgSz && forall t: seq<byte> {:trigger LoadPair(ctx, t, PRIM_LBA)} ::
      Agree(img, t, 0, SecTableAt(ctx)) ==> Invalid(LoadPair(ctx, t, PRIM_LBA))
  }

  /** What an image without a primary pair loads as when a save is cut after "k" region writes. */
  function CutLoadsLost(ctx: ImgCtx, img: seq<byte>, s: Schem, k: nat): Load<Schem>
    requires Validates(ctx) && |img| == ctx.imgSz && Saveable(s)
  {
    if k == 0 then LoadSchem(ctx, img)
    else if k == 1 then BySecondary(ctx, s, SecResidue(ctx, img, |s.table|))
    else if k == 3 then LoadOk(LoadsThird(ctx, img, s))
    else LoadOk(Cleaned(s))
  }

  lemma CutFromLost(ctx: ImgCtx, img: seq<byte>, s: Schem, k: nat)
    requires Validates(ctx) && Storable(s) && PrimLost(ctx, img) && k <= 4
    ensures LoadSchem(ctx, CutSave(ctx, img, s, k)) == CutLoadsLost(ctx, img, s, k)
  {
    if k <= 2 {
      SaveProgress(ctx, img, s, k);
    }
    CutFromInvalid(ctx, img, s, k);
  }

  /** The same if the primary pair is invalid after the cut. */
  lemma CutFromInvalid(ctx: ImgCtx, img: seq<byte>, s: Schem, k: nat)
    requires Validates(ctx) && Storable(s) && |img| == ctx.imgSz && k <= 4
    requires 1 <= k <= 2 ==> Invalid(LoadPair(ctx, CutSave(ctx, img, s, k), PRIM_LBA))
    ensures LoadSchem(ctx, CutSave(ctx, img, s, k)) == CutLoadsLost(ctx, img, s, k)
  {
    if k == 1 {
      FirstCut(ctx, img, s, k);
    } else if k == 2 {
      SecondCut(ctx, img, s, k);
    } else if k == 3 {
      CutThird(ctx, img, s, k);
    } else if k == 4 {
      CutFourth(ctx, img, s, k);
    }
  }

  lemma FirstCut(ctx: ImgCtx, img: seq<byte>, s: Schem, k: nat)
    requires Validates(ctx) && Storable(s) && |img| == ctx.imgSz && k == 1
    requires Invalid(LoadPair(ctx, CutSave(ctx, img, s, k), PRIM_LBA))
    ensures LoadSchem(ctx, CutSave(ctx, img, s, k)) == BySecondary(ctx, s, SecResidue(ctx, img, |s.table|))
  {
    var cut := CutSave(ctx, img, s, k);
    SaveProgress(ctx, img, s, k);
    SecResidueStays(ctx, img, cut, |s.table|);
    LoadsBySec(ctx, cut, s);
  }

  lemma SecondCut(ctx: ImgCtx, img: seq<byte>, s: Schem, k: nat)
    requires Validates(ctx) && Storable(s) && |img| == ctx.imgSz && k == 2
    requires Invalid(LoadPair(ctx, CutSave(ctx, img, s, k), PRIM_LBA))
    ensures LoadSchem(ctx, CutSave(ctx, img, s, k)) == LoadOk(Cleaned(s))
  {
    SaveProgress(ctx, img, s, k);
    HdrsOf(s, ctx);
    PrimaryRecovered(ctx, CutSave(ctx, img, s, k), s);
  }

  lemma HalfIsLost(ctx: ImgCtx, img: seq<byte>, s: Schem)
    requires Validates(ctx) && Saveable(s) && HalfSaved(ctx, img, s)
    ensures PrimLost(ctx, img)
  {
    forall t: seq<byte> {:trigger LoadPair(ctx, t, PRIM_LBA)} | Agree(img, t, 0, SecTableAt(ctx))
      ensures Invalid(LoadPair(ctx, t, PRIM_LBA))
    {
      HalfPrimStays(ctx, img, t, s);
    }
  }

  /**
    A second crash.  After such an image was loaded as "s", the save of another
    scheme is cut: after the first region write no GPT is found at all, unless the
    entries that are left have the checksum of the new table; after the second,
    third and fourth the new scheme is found, unless after the third the entries
    left at the primary table are taken for the new ones.
   */
  lemma SecondCrash(ctx: ImgCtx, img: seq<byte>, s: Schem, next: Schem, k: nat)
    requires Validates(ctx) && Storable(s) && Storable(next) && HalfSaved(ctx, img, s) && k <= 4
    ensures LoadSchem(ctx, CutSave(ctx, img, next, k))
            == if k == 0 then LoadOk(Cleaned(s)) else CutLoadsLost(ctx, img, next, k)
  {
    HalfIsLost(ctx, img, s);
    CutFromLost(ctx, img, next, k);
    HalfLoads(ctx, img, s);
  }

  /** With equally many slots, the first write loses the GPT exactly unless the tables have the same checksum. */
  lemma SecondCrashIff(ctx: ImgCtx, img: seq<byte>, s: Schem, next: Schem)
    requires Validates(ctx) && Storable(s) && Storable(next) && |s.table| == |next.table| && HalfSaved(ctx, img, s)
    ensures LoadSchem(ctx, CutSave(ctx, img, next, 1)) == LoadNotFound
            <==> TableCrc(EntsOf(s.table)) != TableCrc(EntsOf(next.table))
  {
    var first: nat := 1;
    SecondCrash(ctx, img, s, next, first);
    SecResidueIs(ctx, img, s);
  }

  //////////////////////////////////////////////////////////////////////////////
  // Saving the same scheme
  //////////////////////////////////////////////////////////////////////////////

  lemma SecStays(ctx: ImgCtx, img: seq<byte>, s: Schem, k: nat)
    requires Validates(ctx) && Saveable(s) && SecIntact(ctx, img, s) && k <= 4
    ensures SecIntact(ctx, CutSave(ctx, img, s, k), s)
  {
    SaveProgress(ctx, img, s, k);
    HdrsOf(s, ctx);
    Places(ctx);
    if k == 1 {
      EntriesStay(img, CutSave(ctx, img, s, k), 0, SecAt(ctx), SecTableAt(ctx), EntsOf(s.table));
    }
  }

  /** Writing back what was loaded, unchanged, repairs the image and is safe at every cut. */
  lemma RepairSafe(ctx: ImgCtx, img: seq<byte>, s: Schem, k: nat)
    requires Validates(ctx) && Storable(s) && HalfSaved(ctx, img, s) && k <= 4
    ensures LoadSchem(ctx, CutSave(ctx, img, s, k)) == LoadOk(Cleaned(s))
  {
    if k == 4 {
      RoundTripIff(ctx, img, s);
    } else {
      var cut := CutSave(ctx, img, s, k);
      SecStays(ctx, img, s, k);
      SaveProgress(ctx, img, s, k);
      PrimHalfAt(ctx, img, cut, s, k);
      PrimaryRecovered(ctx, cut, s);
    }
  }

  lemma PrimHalfAt(ctx: ImgCtx, img: seq<byte>, cut: seq<byte>, s: Schem, k: nat)
    requires Validates(ctx) && Saveable(s) && HalfSaved(ctx, img, s) && k <= 3
    requires Progress(ctx, img, cut, PrimHdrOf(s, ctx), SecHdrOf(s, ctx), EntsOf(s.table), k)
    ensures LoadPair(ctx, cut, PRIM_LBA) == PairTableInv
  {
    if k <= 2 {
      HalfPrimStays(ctx, img, cut, s);
    } else {
      ResidueStays(ctx, img, cut, |s.table|);
      PrimWithResidue(ctx, cut, s);
    }
  }
}
