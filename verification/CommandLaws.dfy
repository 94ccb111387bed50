/** What each command of the loop does, and what it leaves alone (src/main.c:388-518). */
module CommandLaws {
  import opened Words
  import opened Guids
  import opened ImgCtxs
  import opened Schemes
  import opened GptStore
  import opened GptScheme
  import opened CtxModel
  import opened EditModel
  import opened Session
  import M = MbrScheme

  /** All that may differ is which schemes are in memory, and which of them is edited. */
  predicate SameDisk(st: State, t: State) {
    t.img == st.img && t.c.mbrInImg == st.c.mbrInImg && t.c.gptInImg == st.c.gptInImg
  }

  /** An MBR scheme with four slots, over all sectors behind the MBR that an MBR can hold. */
  predicate WholeMbr(ctx: ImgCtx, s: Schem, id: u32) {
    && s.kind == Kind.Mbr && s.idI == id && s.idGuid == ZERO_GUID && |s.table| == 4
    && s.first == 1 && LbaToByte(ctx, s.last + 1) <= ctx.imgSz
    && (s.last == 0xFFFF_FFFF || LbaToByte(ctx, s.last + 2) > ctx.imgSz)
  }

  /** One protective partition over the whole range, and nothing else. */
  predicate WholeProtective(ctx: ImgCtx, s: Schem, id: u32) {
    && WholeMbr(ctx, s, id)
    && s.table[0] == NoPart().(typeI := 0xEE, startLba := s.first, endLba := s.last)
    && s.table[1] == s.table[2] == s.table[3] == NoPart()
  }

  lemma NewIsWhole(ctx: ImgCtx, id: u32)
    requires Validates(ctx)
    ensures WholeMbr(ctx, M.NewMbr(ctx, id), id) && NoneUsed(M.NewMbr(ctx, id))
    ensures WholeProtective(ctx, NewProtective(ctx, id), id)
  {
    M.NewMbrUsable(ctx, id);
    M.ProtectiveSafe(M.NewMbr(ctx, id));
  }

  //////////////////////////////////////////////////////////////////////////////
  // Creating a scheme
  //////////////////////////////////////////////////////////////////////////////

  lemma CreateMbrMakes(ctx: ImgCtx, st: State, id: u32)
    requires Ready(ctx) && Runnable(ctx, st)
    ensures var t := Step(ctx, st, CreateMbr(id));
            && SameDisk(st, t) && t.cur == Some(Kind.Mbr) && t.c.gpt.None?
            && t.c.mbr.Some? && WholeMbr(ctx, t.c.mbr.value, id) && NoneUsed(t.c.mbr.value)
  {
    NewIsWhole(ctx, id);
  }

  lemma CreateGptMakes(ctx: ImgCtx, st: State, id: u32, guid: Guid)
    requires Ready(ctx) && Runnable(ctx, st)
    ensures var t := Step(ctx, st, CreateGpt(id, guid));
            && SameDisk(st, t) && t.cur == Some(Gpt)
            && t.c.mbr.Some? && WholeProtective(ctx, t.c.mbr.value, id)
            && t.c.gpt.Some? && t.c.gpt.value.kind == Gpt && t.c.gpt.value.idGuid == guid
            && |t.c.gpt.value.table| == 128 && NoneUsed(t.c.gpt.value)
  {
    NewIsWhole(ctx, id);
    NewGptUsable(ctx, guid);
  }

  /** Resetting takes place exactly over a GPT; whatever the MBR was, a protective one comes in its place. */
  lemma ResetProtectiveIff(ctx: ImgCtx, st: State, id: u32)
    requires Ready(ctx) && Runnable(ctx, st)
    ensures var t := Step(ctx, st, ResetProtective(id));
            && SameDisk(st, t) && t.cur == st.cur && t.c.gpt == st.c.gpt
            && (st.c.gpt.Some? && st.c.mbr.Some? ==> t.c.mbr.Some? && WholeProtective(ctx, t.c.mbr.value, id))
            && (st.c.gpt.None? || st.c.mbr.None? ==> t == st)
  {
    NewIsWhole(ctx, id);
  }

  //////////////////////////////////////////////////////////////////////////////
  // Moving between the schemes
  //////////////////////////////////////////////////////////////////////////////

  /** The MBR is entered from a GPT only, and only if there is one. */
  lemma EnterProtectiveIff(ctx: ImgCtx, st: State)
    requires Ready(ctx) && Runnable(ctx, st)
    ensures var t := Step(ctx, st, EnterProtective);
            && t == st.(cur := t.cur)
            && (t.cur != st.cur <==> st.cur == Some(Gpt) && st.c.mbr.Some?)
            && (t.cur != st.cur ==> t.cur == Some(Kind.Mbr))
  {
  }

  lemma ReturnGoes(ctx: ImgCtx, st: State)
    requires Ready(ctx) && Runnable(ctx, st)
    ensures var t := Step(ctx, st, Return);
            && t == st.(cur := t.cur)
            && (st.c.gpt.Some? ==> t.cur == Some(Gpt))
            && (st.c.gpt.None? && st.c.mbr.Some? ==> t.cur == Some(Kind.Mbr))
            && (st.c.gpt.None? && st.c.mbr.None? ==> t.cur == None)
  {
  }

  /** From the scheme that is returned to - the one that the program starts with - entering and returning leads back. */
  lemma EnterThenReturn(ctx: ImgCtx, st: State)
    requires Ready(ctx) && Runnable(ctx, st) && st.cur == GetType(st.c)
    ensures Step(ctx, st, Return) == st
    ensures Run(ctx, st, [EnterProtective, Return]) == st
  {
    var t, u := RunTwo(ctx, st, EnterProtective, Return);
  }

  //////////////////////////////////////////////////////////////////////////////
  // What is left alone
  //////////////////////////////////////////////////////////////////////////////

  /** Writing keeps the schemes and sets the flags to what is in memory. */
  lemma WriteKeeps(ctx: ImgCtx, st: State)
    requires Ready(ctx) && Runnable(ctx, st)
    ensures var t := Step(ctx, st, Write);
            && t.cur == st.cur && t.c.mbr == st.c.mbr && t.c.gpt == st.c.gpt && |t.img| == |st.img|
            && (t.c.mbrInImg <==> st.c.mbr.Some?) && (t.c.gptInImg <==> st.c.gpt.Some?)
  {
  }

  /** An edit changes the scheme that is being edited, and nothing else; without one it does nothing. */
  lemma ModifyKeeps(ctx: ImgCtx, st: State, e: Edit)
    requires Ready(ctx) && Runnable(ctx, st)
    ensures var t := Step(ctx, st, Modify(e));
            && SameDisk(st, t) && t.cur == st.cur
            && (st.cur != Some(Kind.Mbr) ==> t.c.mbr == st.c.mbr)
            && (st.cur != Some(Gpt) ==> t.c.gpt == st.c.gpt)
            && (st.cur.None? ==> t == st)
            && (st.cur.Some? ==> Slot(t.c, st.cur.value) == Some(EditSchem(Slot(st.c, st.cur.value).value, ctx, e)))
            && Step(ctx, st, Other) == st
  {
  }

  //////////////////////////////////////////////////////////////////////////////
  // Where a session starts
  //////////////////////////////////////////////////////////////////////////////

  /** The program starts with the GPT if one is found, else with the MBR if one is, else without a scheme. */
  lemma StartEdits(ctx: ImgCtx, img: seq<byte>, mbrId: u32)
    requires Validates(ctx) && |img| == ctx.imgSz && LoadCtx(ctx, img, mbrId).Some?
    ensures var st := InitialState(ctx, img, mbrId);
            && st.img == img
            && (st.cur == Some(Gpt) <==> LoadSchem(ctx, img).LoadOk?)
            && (st.cur == Some(Kind.Mbr) <==> !LoadSchem(ctx, img).LoadOk? && M.Present(img))
  {
  }
}
