/**
  The scheme context as a value: which schemes are in memory, which are in the
  image, and what creating, loading and saving do to both
  (libs/libpartman/src/schem.c:95-307).
 */
module CtxModel {
  import opened Words
  import opened Memutils
  import opened Guids
  import opened ImgCtxs
  import opened Schemes
  import opened GptFormat
  import opened GptStore
  import opened GptRecovery
  import opened GptTheorems
  import opened GptScheme
  import M = MbrScheme

  datatype Option<T> = None | Some(value: T)

  datatype Ctx = Ctx(mbr: Option<Schem>, gpt: Option<Schem>, mbrInImg: bool, gptInImg: bool)

  /** GPT goes before its protective MBR. */
  function GetType(c: Ctx): Option<Kind> {
    if c.gpt.Some? then Some(Gpt) else if c.mbr.Some? then Some(Kind.Mbr) else None
  }

  /** A protective MBR; "id" is the random disk signature. */
  function NewProtective(ctx: ImgCtx, id: u32): Schem
    requires Validates(ctx)
  {
    M.Protective(M.NewMbr(ctx, id))
  }

  /** A new scheme replaces what is in memory; what is in the image is remembered. */
  function New(ctx: ImgCtx, c: Ctx, kind: Kind, mbrId: u32, gptId: Guid): Ctx
    requires Validates(ctx)
  {
    if kind.Gpt? then c.(mbr := Some(NewProtective(ctx, mbrId)), gpt := Some(NewGpt(ctx, gptId)))
    else c.(mbr := Some(M.NewMbr(ctx, mbrId)), gpt := None)
  }

  function FoundMbr(ctx: ImgCtx, img: seq<byte>): Option<Schem>
    requires Validates(ctx) && |img| == ctx.imgSz
  {
    if M.Present(img) then Some(M.SchemOfMbr(M.Read(img), ctx)) else None
  }

  /** A GPT wants a protective MBR: what was found, if it is one, or a new one. */
  function Assemble(ctx: ImgCtx, mbr: Option<Schem>, gpt: Load<Schem>, mbrId: u32): Option<Ctx>
    requires Validates(ctx) && (mbr.Some? ==> |mbr.value.table| == M.MBR_PARTS)
  {
    match gpt
    case LoadFatal => None
    case LoadNotFound => Some(Ctx(mbr, None, mbr.Some?, false))
    case LoadOk(g) =>
      Some(Ctx(Some(if mbr.Some? && M.PartIsProt(mbr.value.table[0]) then mbr.value else NewProtective(ctx, mbrId)),
               Some(g), mbr.Some?, true))
  }

  /** What loading leaves in memory; None is the fatal exit. */
  function LoadCtx(ctx: ImgCtx, img: seq<byte>, mbrId: u32): Option<Ctx>
    requires Validates(ctx) && |img| == ctx.imgSz
  {
    Assemble(ctx, FoundMbr(ctx, img), LoadSchem(ctx, img), mbrId)
  }

  /** The schemes in memory have the shape that saving them needs. */
  ghost predicate Shaped(ctx: ImgCtx, c: Ctx)
    requires Validates(ctx)
  {
    && (c.mbr.Some? ==> M.MbrShaped(c.mbr.value, ctx))
    && (c.gpt.Some? ==> Storable(c.gpt.value))
  }

  function RemovePass(ctx: ImgCtx, c: Ctx, img: seq<byte>): (t: seq<byte>)
    requires Validates(ctx) && |img| == ctx.imgSz
    ensures |t| == |img|
  {
    var a := if c.mbrInImg && c.mbr.None? then M.Written(img, M.ZeroMbr()) else img;
    if c.gptInImg && c.gpt.None? then Removed(ctx, a) else a
  }

  function PutMbr(ctx: ImgCtx, mbr: Option<Schem>, img: seq<byte>): (t: seq<byte>)
    requires Validates(ctx) && |img| == ctx.imgSz && (mbr.Some? ==> |mbr.value.table| == M.MBR_PARTS)
    ensures |t| == |img|
  {
    if mbr.Some? then M.SaveImg(ctx, img, mbr.value) else img
  }

  function PutGpt(ctx: ImgCtx, gpt: Option<Schem>, img: seq<byte>): (t: seq<byte>)
    requires Validates(ctx) && |img| == ctx.imgSz && (gpt.Some? ==> Saveable(gpt.value))
    ensures |t| == |img|
  {
    if gpt.Some? then Save(ctx, img, gpt.value) else img
  }

  /** The image after a save. */
  function SaveCtx(ctx: ImgCtx, c: Ctx, img: seq<byte>): (t: seq<byte>)
    requires Validates(ctx) && |img| == ctx.imgSz
    requires c.mbr.Some? ==> |c.mbr.value.table| == M.MBR_PARTS
    requires c.gpt.Some? ==> Saveable(c.gpt.value)
    ensures |t| == |img|
  {
    PutGpt(ctx, c.gpt, PutMbr(ctx, c.mbr, RemovePass(ctx, c, img)))
  }

  function Flagged(c: Ctx): Ctx {
    c.(mbrInImg := c.mbr.Some?, gptInImg := c.gpt.Some?)
  }

  //////////////////////////////////////////////////////////////////////////////
  // The invariant
  //////////////////////////////////////////////////////////////////////////////

  /** A header that would be read from this sector does not place its table over the MBR. */
  ghost predicate TableClear(ctx: ImgCtx, img: seq<byte>, lba: nat) {
    HdrMaps(ctx, |img|, lba) && HdrValid(HdrSlice(ctx, img, lba), lba)
    ==> HdrFromBytes(HdrSlice(ctx, img, lba)).tableLba >= 1
  }

  ghost predicate TablesClear(ctx: ImgCtx, img: seq<byte>)
    requires Validates(ctx)
  {
    Layout(ctx);
    TableClear(ctx, img, PRIM_LBA) && TableClear(ctx, img, LastLba(ctx))
  }

  /** A GPT in memory, and anything in the image, is accompanied by an MBR in memory. */
  predicate Lifecycle(c: Ctx) {
    (c.gpt.Some? ==> c.mbr.Some?) && (c.mbrInImg || c.gptInImg ==> c.mbr.Some?)
  }

  ghost predicate Inv(ctx: ImgCtx, c: Ctx, img: seq<byte>)
    requires Validates(ctx)
  {
    && |img| == ctx.imgSz && Shaped(ctx, c) && Lifecycle(c)
    && c.mbrInImg == M.Present(img)
    && (c.gptInImg ==> GptLoad(ctx, img).LoadOk?)
    && (!c.gptInImg ==> GptLoad(ctx, img) == LoadNotFound)
    && TablesClear(ctx, img)
  }

  /** An MBR is never asked to be removed: only a GPT ever is. */
  lemma OnlyGptIsRemoved(ctx: ImgCtx, c: Ctx, img: seq<byte>)
    requires Validates(ctx) && |img| == ctx.imgSz && Lifecycle(c)
    ensures RemovePass(ctx, c, img) == if c.gptInImg && c.gpt.None? then Removed(ctx, img) else img
  {
  }

  //////////////////////////////////////////////////////////////////////////////
  // Writing the MBR leaves the GPT alone, and the other way round
  //////////////////////////////////////////////////////////////////////////////

  lemma PairStays(ctx: ImgCtx, img: seq<byte>, t: seq<byte>, lba: nat)
    requires Validates(ctx) && Agree(img, t, 512, |img|) && lba >= 1 && TableClear(ctx, img, lba)
    ensures LoadPair(ctx, t, lba) == LoadPair(ctx, img, lba) && TableClear(ctx, t, lba)
  {
    if HdrMaps(ctx, |img|, lba) {
      SliceStays(ctx, img, t, lba);
      var s := HdrSlice(ctx, img, lba);
      if HdrValid(s, lba) {
        var h := HdrFromBytes(s);
        MulMono(ctx.secSz, 1, h.tableLba);
        PairTableStays(ctx, img, t, 512, |img|, h);
      }
      LoadPairBySlice(ctx, img, t, lba, s);
    }
  }

  lemma SliceStays(ctx: ImgCtx, img: seq<byte>, t: seq<byte>, lba: nat)
    requires Validates(ctx) && Agree(img, t, 512, |img|) && lba >= 1 && HdrMaps(ctx, |img|, lba)
    ensures HdrSlice(ctx, t, lba) == HdrSlice(ctx, img, lba)
  {
    var o := LbaToByte(ctx, lba);
    MulMono(ctx.secSz, 1, lba);
    AgreeSlice(img, t, 512, |img|, o, o + HDR_SZ);
  }

  lemma LoadPairBySlice(ctx: ImgCtx, img: seq<byte>, t: seq<byte>, lba: nat, s: seq<byte>)
    requires ctx.secSz > 0 && |img| == |t| && HdrMaps(ctx, |img|, lba)
    requires s == HdrSlice(ctx, img, lba) == HdrSlice(ctx, t, lba)
    requires HdrValid(s, lba) ==> LoadPairTable(ctx, t, HdrFromBytes(s)) == LoadPairTable(ctx, img, HdrFromBytes(s))
    ensures LoadPair(ctx, t, lba) == LoadPair(ctx, img, lba)
  {
  }

  /** No GPT stays no GPT when only the first 512 bytes change. */
  lemma NoGptStays(ctx: ImgCtx, img: seq<byte>, t: seq<byte>)
    requires Validates(ctx) && |img| == ctx.imgSz && Agree(img, t, 512, |img|) && TablesClear(ctx, img)
    ensures TablesClear(ctx, t)
    ensures GptLoad(ctx, img) == LoadNotFound ==> GptLoad(ctx, t) == LoadNotFound
  {
    Layout(ctx);
    PairStays(ctx, img, t, PRIM_LBA);
    PairStays(ctx, img, t, LastLba(ctx));
    if GptLoad(ctx, img) == LoadNotFound {
      NotFoundPairs(ctx, LoadPair(ctx, img, PRIM_LBA), img);
    }
  }

  /** Nothing is found only if both fixed positions are invalid. */
  lemma NotFoundPairs(ctx: ImgCtx, prim: PairLoad, img: seq<byte>)
    requires Validates(ctx) && prim == LoadPair(ctx, img, PRIM_LBA) && GptLoad(ctx, img) == LoadNotFound
    ensures Invalid(prim) && Invalid(LoadPair(ctx, img, EndLba(ctx)))
  {
    Layout(ctx);
  }

  lemma MbrWriteAgrees(img: seq<byte>, m: M.Mbr)
    requires |img| >= 512
    ensures Agree(img, M.Written(img, m), 512, |img|)
  {
    forall x | 512 <= x < |img|
      ensures M.Written(img, m)[x] == img[x]
    {
      M.WrittenFrame(img, m, x);
    }
  }

  /** The MBR is read from the first 512 bytes. */
  lemma MbrStays(img: seq<byte>, t: seq<byte>)
    requires |img| >= 512 && Agree(img, t, 0, 512)
    ensures M.Present(t) == M.Present(img) && M.Read(t) == M.Read(img)
  {
    AgreeSlice(img, t, 0, 512, 510, 512);
    AgreeSlice(img, t, 0, 512, 440, 444);
    forall i | 0 <= i < M.MBR_PARTS
      ensures M.PartSlice(t, i) == M.PartSlice(img, i)
    {
      AgreeSlice(img, t, 0, 512, 446 + 16 * i, 446 + 16 * i + 16);
    }
  }

  lemma GptSaveKeepsMbr(ctx: ImgCtx, img: seq<byte>, s: Schem)
    requires Validates(ctx) && Saveable(s) && |img| == ctx.imgSz
    ensures Agree(img, Save(ctx, img, s), 0, 512)
  {
    SaveProgress(ctx, img, s, 4);
    Places(ctx);
  }

  /** A saved GPT has its tables where they belong. */
  lemma SavedTablesClear(ctx: ImgCtx, img: seq<byte>, s: Schem)
    requires Validates(ctx) && Saveable(s) && |img| == ctx.imgSz
    ensures TablesClear(ctx, Save(ctx, img, s))
  {
    Saved(ctx, img, s);
    HdrsOf(s, ctx);
    Layout(ctx);
    HdrReadWrite(PrimHdrOf(s, ctx));
    HdrReadWrite(SecHdrOf(s, ctx));
  }

  lemma UnsignedClear(ctx: ImgCtx, img: seq<byte>)
    requires Validates(ctx) && Unsigned(ctx, img)
    ensures TablesClear(ctx, img)
  {
    UnsignedInvalid(ctx, img);
  }

  //////////////////////////////////////////////////////////////////////////////
  // Every step keeps the invariant
  //////////////////////////////////////////////////////////////////////////////

  lemma NewShaped(ctx: ImgCtx, mbrId: u32, gptId: Guid)
    requires Validates(ctx)
    ensures M.MbrShaped(M.NewMbr(ctx, mbrId), ctx) && M.MbrShaped(NewProtective(ctx, mbrId), ctx)
    ensures Storable(NewGpt(ctx, gptId))
  {
    NewGptUsable(ctx, gptId);
    M.NewMbrUsable(ctx, mbrId);
  }

  lemma NewKeepsInv(ctx: ImgCtx, c: Ctx, img: seq<byte>, kind: Kind, mbrId: u32, gptId: Guid)
    requires Validates(ctx) && Inv(ctx, c, img)
    ensures Inv(ctx, New(ctx, c, kind, mbrId, gptId), img)
    ensures GetType(New(ctx, c, kind, mbrId, gptId)) == Some(kind)
  {
    NewShaped(ctx, mbrId, gptId);
  }

  /** Another MBR scheme over a GPT. */
  lemma ReplaceMbr(ctx: ImgCtx, c: Ctx, img: seq<byte>, m: Schem)
    requires Validates(ctx) && Inv(ctx, c, img) && c.mbr.Some? && M.MbrShaped(m, ctx)
    ensures Inv(ctx, c.(mbr := Some(m)), img)
  {
  }

  /** Loading an image whose GPT headers keep their tables off the MBR. */
  lemma LoadEstablishesInv(ctx: ImgCtx, img: seq<byte>, mbrId: u32)
    requires Validates(ctx) && |img| == ctx.imgSz && TablesClear(ctx, img)
    ensures LoadCtx(ctx, img, mbrId).Some? ==> Inv(ctx, LoadCtx(ctx, img, mbrId).value, img)
  {
    if LoadCtx(ctx, img, mbrId).Some? {
      NewShaped(ctx, mbrId, ZERO_GUID);
      LoadedMbrShaped(ctx, img);
      if LoadSchem(ctx, img).LoadOk? {
        LoadedNamesChained(ctx, img);
      }
    }
  }

  lemma LoadedMbrShaped(ctx: ImgCtx, img: seq<byte>)
    requires Validates(ctx) && |img| == ctx.imgSz
    ensures M.MbrShaped(M.SchemOfMbr(M.Read(img), ctx), ctx)
  {
  }

  /** The image in the middle of a save: removals done, MBR written. */
  lemma MbrSaved(ctx: ImgCtx, c: Ctx, img: seq<byte>)
    requires Validates(ctx) && Inv(ctx, c, img) && c.mbr.Some?
    ensures var t := M.SaveImg(ctx, RemovePass(ctx, c, img), c.mbr.value);
            TablesClear(ctx, t) && M.Present(t) && (c.gpt.None? ==> GptLoad(ctx, t) == LoadNotFound)
  {
    var a := RemovePass(ctx, c, img);
    var t := M.SaveImg(ctx, a, c.mbr.value);
    MbrWriteAgrees(a, M.MbrOf(c.mbr.value, ctx));
    WrittenPresent(a, M.MbrOf(c.mbr.value, ctx));
    if c.gptInImg && c.gpt.None? {
      RemovedUnsigned(ctx, img);
      UnsignedNotFound(ctx, a);
      UnsignedClear(ctx, a);
    }
    NoGptStays(ctx, a, t);
  }

  lemma WrittenPresent(img: seq<byte>, m: M.Mbr)
    requires |img| >= 512
    ensures M.Present(M.Written(img, m))
  {
    M.WrittenSlices(img, m);
    SpanValues();
    ReadWrite(M.BOOT_SIG, 2);
  }

  /** A save leaves the flags equal to what is in memory, and the invariant in place. */
  lemma SaveKeepsInv(ctx: ImgCtx, c: Ctx, img: seq<byte>)
    requires Validates(ctx) && Inv(ctx, c, img)
    ensures Inv(ctx, Flagged(c), SaveCtx(ctx, c, img))
  {
    OnlyGptIsRemoved(ctx, c, img);
    if c.mbr.Some? {
      MbrSaved(ctx, c, img);
      var t := M.SaveImg(ctx, RemovePass(ctx, c, img), c.mbr.value);
      if c.gpt.Some? {
        GptSaveKeepsMbr(ctx, t, c.gpt.value);
        MbrStays(t, Save(ctx, t, c.gpt.value));
        SavedTablesClear(ctx, t, c.gpt.value);
        SaveLoadPairs(ctx, t, c.gpt.value);
      }
    }
  }

  /** Whatever was saved, safe or not, a new start of the program finds the same type. */
  lemma SavedType(ctx: ImgCtx, c: Ctx, img: seq<byte>, mbrId: u32)
    requires Validates(ctx) && Inv(ctx, c, img)
    ensures LoadCtx(ctx, SaveCtx(ctx, c, img), mbrId).Some?
    ensures GetType(LoadCtx(ctx, SaveCtx(ctx, c, img), mbrId).value) == GetType(c)
  {
    SaveKeepsInv(ctx, c, img);
    TypeByFlags(ctx, Flagged(c), SaveCtx(ctx, c, img), mbrId);
  }

  lemma TypeByFlags(ctx: ImgCtx, c: Ctx, img: seq<byte>, mbrId: u32)
    requires Validates(ctx) && Inv(ctx, c, img) && c == Flagged(c)
    ensures LoadCtx(ctx, img, mbrId).Some? && GetType(LoadCtx(ctx, img, mbrId).value) == GetType(c)
  {
  }

  /**
    What was saved is what a new start of the program loads: the same type, the
    same GPT scheme, and the same MBR scheme - or, over a GPT, a fresh protective
    one if the saved MBR was not protective any more.
   */
  lemma SaveThenLoad(ctx: ImgCtx, c: Ctx, img: seq<byte>, mbrId: u32)
    requires Validates(ctx) && Inv(ctx, c, img)
    requires c.mbr.Some? ==> Safe(c.mbr.value)
    ensures LoadCtx(ctx, SaveCtx(ctx, c, img), mbrId) == Some(Reloaded(ctx, c, mbrId))
    ensures GetType(Reloaded(ctx, c, mbrId)) == GetType(c)
  {
    SavedParts(ctx, c, img);
    AssembleSaved(ctx, c, mbrId);
  }

  function SavedMbr(c: Ctx): Option<Schem>
    requires c.mbr.Some? ==> |c.mbr.value.table| == M.MBR_PARTS
  {
    if c.mbr.Some? then Some(M.CleanedMbr(c.mbr.value)) else None
  }

  function SavedGpt(c: Ctx): Load<Schem> {
    if c.gpt.Some? then LoadOk(Cleaned(c.gpt.value)) else LoadNotFound
  }

  lemma AssembleSaved(ctx: ImgCtx, c: Ctx, mbrId: u32)
    requires Validates(ctx) && Shaped(ctx, c) && (c.gpt.Some? ==> c.mbr.Some?)
    ensures Assemble(ctx, SavedMbr(c), SavedGpt(c), mbrId) == Some(Reloaded(ctx, c, mbrId))
    ensures GetType(Reloaded(ctx, c, mbrId)) == GetType(c)
  {
  }

  /** Each scheme is found as it was saved. */
  lemma SavedParts(ctx: ImgCtx, c: Ctx, img: seq<byte>)
    requires Validates(ctx) && Inv(ctx, c, img)
    requires c.mbr.Some? ==> Safe(c.mbr.value)
    ensures FoundMbr(ctx, SaveCtx(ctx, c, img)) == SavedMbr(c)
    ensures LoadSchem(ctx, SaveCtx(ctx, c, img)) == SavedGpt(c)
  {
    OnlyGptIsRemoved(ctx, c, img);
    if c.mbr.Some? {
      M.SafeIsHoldable(ctx, c.mbr.value);
      var a := RemovePass(ctx, c, img);
      MbrPartSaved(ctx, c, a);
      MbrSaved(ctx, c, img);
      if c.gpt.Some? {
        SaveGptThenLoad(ctx, M.SaveImg(ctx, a, c.mbr.value), c.gpt.value);
      }
    }
  }

  lemma MbrPartSaved(ctx: ImgCtx, c: Ctx, a: seq<byte>)
    requires Validates(ctx) && |a| == ctx.imgSz && c.mbr.Some? && M.MbrShaped(c.mbr.value, ctx) && M.Fits(c.mbr.value)
    ensures FoundMbr(ctx, M.SaveImg(ctx, a, c.mbr.value)) == SavedMbr(c)
  {
    M.MbrRoundTrip(ctx, a, c.mbr.value);
  }

  lemma SaveGptThenLoad(ctx: ImgCtx, img: seq<byte>, s: Schem)
    requires Validates(ctx) && Storable(s) && |img| == ctx.imgSz
    ensures LoadSchem(ctx, Save(ctx, img, s)) == LoadOk(Cleaned(s))
    ensures FoundMbr(ctx, Save(ctx, img, s)) == FoundMbr(ctx, img)
  {
    GptSaveKeepsMbr(ctx, img, s);
    MbrStays(img, Save(ctx, img, s));
    RoundTripIff(ctx, img, s);
  }

  function Reloaded(ctx: ImgCtx, c: Ctx, mbrId: u32): Ctx
    requires Validates(ctx) && (c.mbr.Some? ==> |c.mbr.value.table| == M.MBR_PARTS)
  {
    var mbr := if c.mbr.None? then None
               else if c.gpt.Some? && !M.PartIsProt(c.mbr.value.table[0]) then Some(NewProtective(ctx, mbrId))
               else Some(M.CleanedMbr(c.mbr.value));
    Flagged(Ctx(mbr, if c.gpt.Some? then Some(Cleaned(c.gpt.value)) else None, false, false))
  }

  /** What was in memory, unused slots zeroed and the flags set. */
  function Restored(c: Ctx): Ctx
    requires c.mbr.Some? ==> |c.mbr.value.table| == M.MBR_PARTS
  {
    Flagged(Ctx(SavedMbr(c), if c.gpt.Some? then Some(Cleaned(c.gpt.value)) else None, false, false))
  }

  /**
    Both schemes come back from a save and a new start of the program if and only
    if the MBR over a GPT still begins with a protective partition; otherwise a
    fresh protective MBR takes its place, whatever identifier is drawn.
   */
  lemma RestoredIff(ctx: ImgCtx, c: Ctx, img: seq<byte>, mbrId: u32)
    requires Validates(ctx) && Inv(ctx, c, img)
    requires c.mbr.Some? ==> Safe(c.mbr.value)
    ensures LoadCtx(ctx, SaveCtx(ctx, c, img), mbrId) == Some(Restored(c))
            <==> c.gpt.None? || M.PartIsProt(c.mbr.value.table[0])
  {
    SaveThenLoad(ctx, c, img, mbrId);
    if c.gpt.Some? {
      ReplacedDiffers(ctx, c, mbrId);
    }
  }

  lemma ReplacedDiffers(ctx: ImgCtx, c: Ctx, mbrId: u32)
    requires Validates(ctx) && Shaped(ctx, c) && c.mbr.Some? && c.gpt.Some?
    ensures Reloaded(ctx, c, mbrId) == Restored(c) <==> M.PartIsProt(c.mbr.value.table[0])
  {
    if !M.PartIsProt(c.mbr.value.table[0]) {
      var made := NewProtective(ctx, mbrId);
      assert M.PartIsProt(made.table[0]);
      assert !M.PartIsProt(M.CleanedMbr(c.mbr.value).table[0]);
    }
  }

  /** Turning a GPT image into an MBR image leaves no GPT to be found. */
  lemma GptToMbr(ctx: ImgCtx, c: Ctx, img: seq<byte>, mbrId: u32, again: u32)
    requires Validates(ctx) && Inv(ctx, c, img) && c.gptInImg
    ensures var d := New(ctx, c, Kind.Mbr, mbrId, ZERO_GUID);
            var t := SaveCtx(ctx, d, img);
            && GptLoad(ctx, t) == LoadNotFound
            && LoadCtx(ctx, t, again) == Some(Ctx(d.mbr, None, true, false))
  {
    var d := New(ctx, c, Kind.Mbr, mbrId, ZERO_GUID);
    NewKeepsInv(ctx, c, img, Kind.Mbr, mbrId, ZERO_GUID);
    M.NewMbrUsable(ctx, mbrId);
    SaveThenLoad(ctx, d, img, again);
    MbrSaved(ctx, d, img);
    assert M.CleanedMbr(d.mbr.value) == d.mbr.value;
  }
}
