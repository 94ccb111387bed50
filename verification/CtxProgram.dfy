/** The scheme context in place: creating, loading and saving schemes (libs/libpartman/src/schem.c:58-307). */
module CtxProgram {
  import opened Words
  import opened Crc32
  import opened Guids
  import opened ImgCtxs
  import opened Schemes
  import opened GptStore
  import opened GptProgram
  import opened GptScheme
  import opened CtxModel
  import M = MbrScheme

  function ValueOf(s: Scheme?): Option<Schem>
    reads s
  {
    if s == null then None else Some(s.Value())
  }

  /** The two-element arrays of the program, one field for each scheme kind. */
  class SchemCtx {
    var mbr: Scheme?
    var gpt: Scheme?
    var mbrInImg: bool
    var gptInImg: bool

    ghost predicate Valid()
      reads this
    {
      mbr != null ==> mbr != gpt
    }

    function Value(): Ctx
      reads this, mbr, gpt
    {
      Ctx(ValueOf(mbr), ValueOf(gpt), mbrInImg, gptInImg)
    }

    constructor ()
      ensures Valid() && Value() == Ctx(None, None, false, false)
    {
      mbr, gpt, mbrInImg, gptInImg := null, null, false, false;
    }

    method Reset(keepFlags: bool)
      modifies this
      ensures mbr == null && gpt == null
      ensures mbrInImg == (keepFlags && old(mbrInImg)) && gptInImg == (keepFlags && old(gptInImg))
    {
      mbr, gpt := null, null;
      if !keepFlags {
        mbrInImg, gptInImg := false, false;
      }
    }

    method NewGptSchemes(ctx: ImgCtx, mbrId: u32, gptId: Guid)
      requires Validates(ctx)
      modifies this
      ensures Valid() && mbr != null && gpt != null && fresh(mbr) && fresh(gpt)
      ensures Value() == Ctx(Some(NewProtective(ctx, mbrId)), Some(NewGpt(ctx, gptId)), old(mbrInImg), old(gptInImg))
    {
      var g := new Scheme(Gpt);
      InitGpt(g, ctx, gptId);
      var m := new Scheme(Kind.Mbr);
      M.InitMbr(m, ctx, mbrId);
      M.SetProt(m);
      mbr, gpt := m, g;
    }

    method New(ctx: ImgCtx, kind: Kind, mbrId: u32, gptId: Guid)
      requires Validates(ctx)
      modifies this
      ensures Valid() && (mbr != null ==> fresh(mbr)) && (gpt != null ==> fresh(gpt))
      ensures Value() == CtxModel.New(ctx, old(Value()), kind, mbrId, gptId)
    {
      Reset(true);
      match kind
      case Gpt =>
        NewGptSchemes(ctx, mbrId, gptId);
      case Mbr =>
        var m := new Scheme(Kind.Mbr);
        M.InitMbr(m, ctx, mbrId);
        mbr := m;
    }

    /** A loaded GPT gets the MBR that was found, made protective, or a new one. */
    method ProtectGpt(ctx: ImgCtx, mbrId: u32)
      requires Validates(ctx) && Valid()
      requires mbr != null ==> mbr.idGuid == ZERO_GUID && |mbr.table| == M.MBR_PARTS
      modifies this, mbr
      ensures Valid() && mbr != null && (mbr == old(mbr) || fresh(mbr))
      ensures gpt == old(gpt) && mbrInImg == old(mbrInImg) && gptInImg == old(gptInImg)
      ensures mbr.Value() == if old(mbr != null && M.PartIsProt(mbr.table[0])) then old(ValueOf(mbr)).value
                             else NewProtective(ctx, mbrId)
    {
      if mbr == null {
        var m := new Scheme(Kind.Mbr);
        M.InitMbr(m, ctx, mbrId);
        M.SetProt(m);
        mbr := m;
      } else if !M.PartIsProt(mbr.table[0]) {
        M.InitMbr(mbr, ctx, mbrId);
        M.SetProt(mbr);
      }
    }

    method LoadMbr(ctx: ImgCtx, img: array<byte>)
      requires Validates(ctx) && img.Length == ctx.imgSz && mbr == null && !mbrInImg
      modifies this
      ensures Valid() && (mbr != null ==> fresh(mbr))
      ensures mbrInImg == (mbr != null) && gpt == old(gpt) && gptInImg == old(gptInImg)
      ensures ValueOf(mbr) == FoundMbr(ctx, img[..])
    {
      var m := new Scheme(Kind.Mbr);
      var found := M.LoadMbr(ctx, img, m);
      if found {
        mbr := m;
        mbrInImg := true;
      }
    }

    /** MBR first, then GPT; on the fatal result the program ends. */
    method Load(t: Table, ctx: ImgCtx, img: array<byte>, mbrId: u32) returns (ok: bool)
      requires t.Valid() && Validates(ctx) && img.Length == ctx.imgSz
      modifies this, t.entries
      ensures t.Valid() && Valid() && (mbr != null ==> fresh(mbr)) && (gpt != null ==> fresh(gpt))
      ensures ok == LoadCtx(ctx, img[..], mbrId).Some?
      ensures ok ==> Value() == LoadCtx(ctx, img[..], mbrId).value
    {
      Reset(false);
      LoadMbr(ctx, img);
      var g := new Scheme(Gpt);
      var r := LoadGpt(t, ctx, img, g);
      if r == Fatal {
        return false;
      }
      if r == Loaded {
        gpt := g;
        gptInImg := true;
        ProtectGpt(ctx, mbrId);
      }
      return true;
    }

    /** Schemes in the image that nothing in memory replaces. */
    method RemoveLost(ctx: ImgCtx, img: array<byte>)
      requires Validates(ctx) && img.Length == ctx.imgSz
      modifies this, img
      ensures mbr == old(mbr) && gpt == old(gpt) && !mbrInImg && !gptInImg
      ensures img[..] == RemovePass(ctx, old(Value()), old(img[..]))
    {
      if mbrInImg {
        if mbr == null {
          M.RemoveMbr(img);
        }
        mbrInImg := false;
      }
      if gptInImg {
        if gpt == null {
          RemoveGpt(ctx, img);
        }
        gptInImg := false;
      }
    }

    method SaveMbrScheme(ctx: ImgCtx, img: array<byte>)
      requires Validates(ctx) && img.Length == ctx.imgSz && !mbrInImg
      requires mbr != null ==> |mbr.table| == M.MBR_PARTS
      modifies this`mbrInImg, img
      ensures mbrInImg == (mbr != null)
      ensures img[..] == PutMbr(ctx, ValueOf(mbr), old(img[..]))
    {
      if mbr != null {
        M.SaveMbr(ctx, img, mbr);
        mbrInImg := true;
      }
    }

    method SaveGptScheme(t: Table, ctx: ImgCtx, img: array<byte>)
      requires t.Valid() && Validates(ctx) && img.Length == ctx.imgSz && !gptInImg
      requires gpt != null ==> Saveable(gpt.Value())
      modifies this`gptInImg, img, t.entries
      ensures t.Valid() && gptInImg == (gpt != null)
      ensures img[..] == PutGpt(ctx, ValueOf(gpt), old(img[..]))
    {
      if gpt != null {
        SaveGpt(t, ctx, img, gpt);
        gptInImg := true;
      }
    }

    method Save(t: Table, ctx: ImgCtx, img: array<byte>)
      requires t.Valid() && Validates(ctx) && img.Length == ctx.imgSz
      requires mbr != null ==> |mbr.table| == M.MBR_PARTS
      requires gpt != null ==> Saveable(gpt.Value())
      modifies this, img, t.entries
      ensures t.Valid() && mbr == old(mbr) && gpt == old(gpt)
      ensures Value() == Flagged(old(Value()))
      ensures img[..] == SaveCtx(ctx, old(Value()), old(img[..]))
    {
      RemoveLost(ctx, img);
      SaveMbrScheme(ctx, img);
      SaveGptScheme(t, ctx, img);
    }

    /** GPT is checked for first, so that its protective MBR does not hide it. */
    method CurrentType() returns (r: Option<Kind>)
      ensures r == GetType(Value())
    {
      if gpt != null {
        return Some(Gpt);
      }
      if mbr != null {
        return Some(Kind.Mbr);
      }
      return None;
    }
  }
}
