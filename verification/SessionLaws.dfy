/** What every run of the command loop keeps, from whatever image it starts (src/main.c:388-555, 623-681). */
module SessionLaws {
  import opened Words
  import opened Guids
  import opened ImgCtxs
  import opened Schemes
  import opened GptFormat
  import opened GptStore
  import opened GptRecovery
  import opened GptTheorems
  import opened GptScheme
  import opened CtxModel
  import opened EditModel
  import opened EditLaws
  import opened Session
  import M = MbrScheme

  ghost predicate Loaded(ctx: ImgCtx, img: seq<byte>, mbrId: u32)
    requires Validates(ctx)
  {
    |img| == ctx.imgSz && LoadCtx(ctx, img, mbrId).Some?
  }

  //////////////////////////////////////////////////////////////////////////////
  // Which schemes are in memory
  //////////////////////////////////////////////////////////////////////////////

  lemma StepKeepsLifecycle(ctx: ImgCtx, st: State, cmd: Command)
    requires Ready(ctx) && Runnable(ctx, st) && Lifecycle(st.c)
    ensures Lifecycle(Step(ctx, st, cmd).c)
  {
  }

  lemma {:induction false} RunKeepsLifecycle(ctx: ImgCtx, st: State, cmds: seq<Command>)
    requires Ready(ctx) && Runnable(ctx, st) && Lifecycle(st.c)
    ensures Lifecycle(Run(ctx, st, cmds).c)
    decreases |cmds|
  {
    if cmds != [] {
      StepKeepsRunnable(ctx, st, cmds[0]);
      StepKeepsLifecycle(ctx, st, cmds[0]);
      RunKeepsLifecycle(ctx, Step(ctx, st, cmds[0]), cmds[1..]);
    }
  }

  /**
    From every image that can be loaded, after any commands: a GPT in memory, and
    anything in the image, is accompanied by an MBR in memory; and a save removes
    at most the GPT.
   */
  lemma RunLifecycle(ctx: ImgCtx, img: seq<byte>, mbrId: u32, cmds: seq<Command>)
    requires Ready(ctx) && Loaded(ctx, img, mbrId)
    ensures Runnable(ctx, InitialState(ctx, img, mbrId))
    ensures var st := Run(ctx, InitialState(ctx, img, mbrId), cmds);
            && Lifecycle(st.c)
            && RemovePass(ctx, st.c, st.img)
               == if st.c.gptInImg && st.c.gpt.None? then Removed(ctx, st.img) else st.img
  {
    LoadedRunnable(ctx, img, mbrId);
    RunKeepsLifecycle(ctx, InitialState(ctx, img, mbrId), cmds);
    var st := Run(ctx, InitialState(ctx, img, mbrId), cmds);
    OnlyGptIsRemoved(ctx, st.c, st.img);
  }

  //////////////////////////////////////////////////////////////////////////////
  // What the flags say
  //////////////////////////////////////////////////////////////////////////////

  lemma ModifyKeepsInv(ctx: ImgCtx, st: State, e: Edit)
    requires Ready(ctx) && Runnable(ctx, st) && Inv(ctx, st.c, st.img)
    ensures Inv(ctx, Step(ctx, st, Modify(e)).c, st.img) && Step(ctx, st, Modify(e)).img == st.img
  {
    StepKeepsRunnable(ctx, st, Modify(e));
  }

  lemma ResetKeepsInv(ctx: ImgCtx, st: State, id: u32)
    requires Ready(ctx) && Runnable(ctx, st) && Inv(ctx, st.c, st.img)
    ensures Inv(ctx, Step(ctx, st, ResetProtective(id)).c, st.img) && Step(ctx, st, ResetProtective(id)).img == st.img
  {
    if st.c.gpt.Some? && st.c.mbr.Some? {
      NewShaped(ctx, id, ZERO_GUID);
      ReplaceMbr(ctx, st.c, st.img, NewProtective(ctx, id));
    }
  }

  lemma StepKeepsInv(ctx: ImgCtx, st: State, cmd: Command)
    requires Ready(ctx) && Runnable(ctx, st) && Inv(ctx, st.c, st.img)
    ensures Inv(ctx, Step(ctx, st, cmd).c, Step(ctx, st, cmd).img)
  {
    match cmd
    case Modify(e) => ModifyKeepsInv(ctx, st, e);
    case Write => SaveKeepsInv(ctx, st.c, st.img);
    case CreateMbr(id) => NewKeepsInv(ctx, st.c, st.img, Kind.Mbr, id, ZERO_GUID);
    case CreateGpt(id, guid) => NewKeepsInv(ctx, st.c, st.img, Gpt, id, guid);
    case ResetProtective(id) => ResetKeepsInv(ctx, st, id);
    case _ =>
  }

  lemma {:induction false} RunKeepsInv(ctx: ImgCtx, st: State, cmds: seq<Command>)
    requires Ready(ctx) && Runnable(ctx, st) && Inv(ctx, st.c, st.img)
    ensures Inv(ctx, Run(ctx, st, cmds).c, Run(ctx, st, cmds).img)
    decreases |cmds|
  {
    if cmds != [] {
      StepKeepsRunnable(ctx, st, cmds[0]);
      StepKeepsInv(ctx, st, cmds[0]);
      RunKeepsInv(ctx, Step(ctx, st, cmds[0]), cmds[1..]);
    }
  }

  /**
    From every image that can be loaded and keeps its GPT tables off sector 0,
    after any commands: each flag is set exactly if its scheme is found in the image.
   */
  lemma RunFlags(ctx: ImgCtx, img: seq<byte>, mbrId: u32, cmds: seq<Command>)
    requires Ready(ctx) && Loaded(ctx, img, mbrId) && TablesClear(ctx, img)
    ensures Runnable(ctx, InitialState(ctx, img, mbrId))
    ensures var st := Run(ctx, InitialState(ctx, img, mbrId), cmds); Inv(ctx, st.c, st.img)
  {
    LoadedRunnable(ctx, img, mbrId);
    LoadEstablishesInv(ctx, img, mbrId);
    RunKeepsInv(ctx, InitialState(ctx, img, mbrId), cmds);
  }

  /** And writing and starting again finds the type that is in memory, safe tables or not. */
  lemma RunThenType(ctx: ImgCtx, img: seq<byte>, mbrId: u32, cmds: seq<Command>, again: u32)
    requires Ready(ctx) && Loaded(ctx, img, mbrId) && TablesClear(ctx, img)
    ensures Runnable(ctx, InitialState(ctx, img, mbrId))
    ensures var st := Run(ctx, InitialState(ctx, img, mbrId), cmds);
            var written := Step(ctx, st, Write);
            && LoadCtx(ctx, written.img, again).Some?
            && GetType(LoadCtx(ctx, written.img, again).value) == GetType(st.c)
  {
    RunFlags(ctx, img, mbrId, cmds);
    var st := Run(ctx, InitialState(ctx, img, mbrId), cmds);
    SavedType(ctx, st.c, st.img, again);
  }

  //////////////////////////////////////////////////////////////////////////////
  // Safe tables
  //////////////////////////////////////////////////////////////////////////////

  ghost predicate AllSafe(c: Ctx) {
    (c.mbr.Some? ==> Safe(c.mbr.value)) && (c.gpt.Some? ==> Safe(c.gpt.value))
  }

  lemma StepKeepsSafe(ctx: ImgCtx, st: State, cmd: Command)
    requires Ready(ctx) && Runnable(ctx, st) && AllSafe(st.c)
    ensures AllSafe(Step(ctx, st, cmd).c)
  {
    match cmd
    case Modify(e) =>
      if st.cur.Some? {
        EditSafe(Slot(st.c, st.cur.value).value, ctx, e);
      }
    case CreateMbr(id) => NewSafe(ctx, id, ZERO_GUID);
    case CreateGpt(id, guid) => NewSafe(ctx, id, guid);
    case ResetProtective(id) => NewSafe(ctx, id, ZERO_GUID);
    case _ =>
  }

  /**
    Whole-run safety: from safe tables, whatever the image, after any commands with
    any input, the used partitions of every scheme in memory are well formed, in
    the usable range and pairwise disjoint.
   */
  lemma {:induction false} RunSafe(ctx: ImgCtx, st: State, cmds: seq<Command>)
    requires Ready(ctx) && Runnable(ctx, st) && AllSafe(st.c)
    ensures AllSafe(Run(ctx, st, cmds).c)
    decreases |cmds|
  {
    if cmds != [] {
      StepKeepsRunnable(ctx, st, cmds[0]);
      StepKeepsSafe(ctx, st, cmds[0]);
      RunSafe(ctx, Step(ctx, st, cmds[0]), cmds[1..]);
    }
  }

  //////////////////////////////////////////////////////////////////////////////
  // The contents of partitions
  //////////////////////////////////////////////////////////////////////////////

  /** The bytes strictly between the primary and the secondary table. */
  ghost predicate SameData(ctx: ImgCtx, s: seq<byte>, t: seq<byte>)
    requires Validates(ctx)
  {
    Agree(s, t, PrimTableAt(ctx) + 128 * MAX_PARTS, SecTableAt(ctx))
  }

  lemma WrittenKeepsData(ctx: ImgCtx, img: seq<byte>, m: M.Mbr)
    requires Validates(ctx) && |img| == ctx.imgSz
    ensures SameData(ctx, img, M.Written(img, m))
  {
    Places(ctx);
    MbrWriteAgrees(img, m);
  }

  lemma RemovedKeepsData(ctx: ImgCtx, img: seq<byte>)
    requires Validates(ctx) && |img| == ctx.imgSz
    ensures SameData(ctx, img, Removed(ctx, img))
  {
    Places(ctx);
  }

  lemma RemoveKeepsData(ctx: ImgCtx, c: Ctx, img: seq<byte>)
    requires Validates(ctx) && |img| == ctx.imgSz
    ensures SameData(ctx, img, RemovePass(ctx, c, img))
  {
    WrittenKeepsData(ctx, img, M.ZeroMbr());
    RemovedKeepsData(ctx, img);
    RemovedKeepsData(ctx, M.Written(img, M.ZeroMbr()));
  }

  lemma PutMbrKeepsData(ctx: ImgCtx, mbr: Option<Schem>, img: seq<byte>)
    requires Validates(ctx) && |img| == ctx.imgSz && (mbr.Some? ==> |mbr.value.table| == M.MBR_PARTS)
    ensures SameData(ctx, img, PutMbr(ctx, mbr, img))
  {
    if mbr.Some? {
      WrittenKeepsData(ctx, img, M.MbrOf(mbr.value, ctx));
    }
  }

  lemma PutGptKeepsData(ctx: ImgCtx, gpt: Option<Schem>, img: seq<byte>)
    requires Validates(ctx) && |img| == ctx.imgSz && (gpt.Some? ==> Saveable(gpt.value))
    ensures SameData(ctx, img, PutGpt(ctx, gpt, img))
  {
    if gpt.Some? {
      SaveProgress(ctx, img, gpt.value, 4);
    }
  }

  lemma SaveKeepsData(ctx: ImgCtx, c: Ctx, img: seq<byte>)
    requires Validates(ctx) && |img| == ctx.imgSz && Shaped(ctx, c)
    ensures SameData(ctx, img, SaveCtx(ctx, c, img))
  {
    var a := RemovePass(ctx, c, img);
    var b := PutMbr(ctx, c.mbr, a);
    RemoveKeepsData(ctx, c, img);
    PutMbrKeepsData(ctx, c.mbr, a);
    PutGptKeepsData(ctx, c.gpt, b);
    DataTrans(ctx, img, a, b, PutGpt(ctx, c.gpt, b));
  }

  lemma DataTrans(ctx: ImgCtx, s: seq<byte>, t: seq<byte>, u: seq<byte>, v: seq<byte>)
    requires Validates(ctx) && SameData(ctx, s, t) && SameData(ctx, t, u) && SameData(ctx, u, v)
    ensures SameData(ctx, s, v)
  {
  }

  /** No run touches a byte between the two tables, whatever was loaded. */
  lemma {:induction false} RunKeepsData(ctx: ImgCtx, st: State, cmds: seq<Command>)
    requires Ready(ctx) && Runnable(ctx, st)
    ensures SameData(ctx, st.img, Run(ctx, st, cmds).img)
    decreases |cmds|
  {
    if cmds != [] {
      StepKeepsRunnable(ctx, st, cmds[0]);
      if cmds[0].Write? {
        SaveKeepsData(ctx, st.c, st.img);
      }
      RunKeepsData(ctx, Step(ctx, st, cmds[0]), cmds[1..]);
    }
  }

  /** So every partition inside the range of a GPT that this program makes keeps its contents. */
  lemma PartitionKept(ctx: ImgCtx, st: State, cmds: seq<Command>, id: Guid, p: Part)
    requires Ready(ctx) && Runnable(ctx, st) && InRange(NewGpt(ctx, id), p)
    ensures var a, b := LbaToByte(ctx, p.startLba), LbaToByte(ctx, p.endLba + 1);
            a <= b <= |st.img| && Run(ctx, st, cmds).img[a..b] == st.img[a..b]
  {
    var a, b := LbaToByte(ctx, p.startLba), LbaToByte(ctx, p.endLba + 1);
    PartitionPlace(ctx, id, p, a, b);
    RunKeepsData(ctx, st, cmds);
    AgreeSlice(st.img, Run(ctx, st, cmds).img, PrimTableAt(ctx) + 128 * MAX_PARTS, SecTableAt(ctx), a, b);
  }

  lemma PartitionPlace(ctx: ImgCtx, id: Guid, p: Part, a: nat, b: nat)
    requires Validates(ctx) && InRange(NewGpt(ctx, id), p)
    requires a == LbaToByte(ctx, p.startLba) && b == LbaToByte(ctx, p.endLba + 1)
    ensures PrimTableAt(ctx) + 128 * MAX_PARTS <= a <= b <= SecTableAt(ctx) <= ctx.imgSz
  {
    var s := NewGpt(ctx, id);
    NewGptUsable(ctx, id);
    Places(ctx);
    LbaSum(ctx, s.last, 1);
    MulMono(ctx.secSz, s.first, p.startLba);
    MulMono(ctx.secSz, p.startLba, p.endLba + 1);
    MulMono(ctx.secSz, p.endLba + 1, s.last + 1);
  }

  //////////////////////////////////////////////////////////////////////////////
  // Restarting
  //////////////////////////////////////////////////////////////////////////////

  /** A start with safe tables, on an image that keeps its GPT tables off sector 0. */
  ghost predicate Start(ctx: ImgCtx, img: seq<byte>, mbrId: u32)
    requires Validates(ctx)
  {
    Loaded(ctx, img, mbrId) && TablesClear(ctx, img) && AllSafe(LoadCtx(ctx, img, mbrId).value)
  }

  /** Such is an image without boot and GPT signatures: the program starts without a scheme. */
  lemma BlankStart(ctx: ImgCtx, img: seq<byte>, mbrId: u32)
    requires Validates(ctx) && Unsigned(ctx, img) && !M.Present(img)
    ensures Start(ctx, img, mbrId)
    ensures InitialState(ctx, img, mbrId) == State(Ctx(None, None, false, false), None, img)
  {
    UnsignedNotFound(ctx, img);
    UnsignedClear(ctx, img);
  }

  /** Starting on an image gives back what was in memory as "c". */
  ghost predicate Restarts(ctx: ImgCtx, c: Ctx, img: seq<byte>, again: u32)
    requires Validates(ctx) && |img| == ctx.imgSz && Shaped(ctx, c) && (c.gpt.Some? ==> c.mbr.Some?)
  {
    && Start(ctx, img, again)
    && LoadCtx(ctx, img, again) == Some(Reloaded(ctx, c, again))
    && GetType(Reloaded(ctx, c, again)) == GetType(c)
    && (Reloaded(ctx, c, again) == Restored(c) <==> c.gpt.None? || M.PartIsProt(c.mbr.value.table[0]))
  }

  /** Writing safe tables and starting again. */
  lemma WriteThenRestart(ctx: ImgCtx, st: State, again: u32)
    requires Ready(ctx) && Runnable(ctx, st) && Inv(ctx, st.c, st.img) && AllSafe(st.c)
    ensures Restarts(ctx, st.c, Step(ctx, st, Write).img, again)
  {
    SaveThenLoad(ctx, st.c, st.img, again);
    SaveKeepsInv(ctx, st.c, st.img);
    ReloadedSafe(ctx, st.c, again);
    RestoredIff(ctx, st.c, st.img, again);
  }

  /**
    Whatever was edited, writing safe tables at the end and starting the program
    again gives the schemes that were in memory - except that an MBR over a GPT
    that does not begin with a protective partition is replaced by a fresh
    protective one.
   */
  lemma RunThenRestart(ctx: ImgCtx, img: seq<byte>, mbrId: u32, cmds: seq<Command>, again: u32)
    requires Ready(ctx) && Start(ctx, img, mbrId)
    ensures Runnable(ctx, InitialState(ctx, img, mbrId))
    ensures var st := Run(ctx, InitialState(ctx, img, mbrId), cmds);
            Lifecycle(st.c) && Restarts(ctx, st.c, Step(ctx, st, Write).img, again)
  {
    RunFlags(ctx, img, mbrId, cmds);
    RunSafe(ctx, InitialState(ctx, img, mbrId), cmds);
    WriteThenRestart(ctx, Run(ctx, InitialState(ctx, img, mbrId), cmds), again);
  }

  lemma ReloadedSafe(ctx: ImgCtx, c: Ctx, mbrId: u32)
    requires Validates(ctx) && Shaped(ctx, c) && AllSafe(c)
    ensures AllSafe(Reloaded(ctx, c, mbrId))
  {
    NewSafe(ctx, mbrId, ZERO_GUID);
    if c.mbr.Some? {
      CleanedSafe(c.mbr.value, M.CleanedMbr(c.mbr.value));
    }
    if c.gpt.Some? {
      CleanedSafe(c.gpt.value, Cleaned(c.gpt.value));
    }
  }

  /** Zeroing unused slots keeps a scheme safe. */
  lemma CleanedSafe(s: Schem, t: Schem)
    requires Safe(s) && t == s.(table := t.table) && |t.table| == |s.table|
    requires forall i :: 0 <= i < |s.table|
               ==> t.table[i] == if IsUsed(s.kind, s.table[i]) then s.table[i] else NoPart()
    ensures Safe(t)
  {
    assert !IsUsed(s.kind, NoPart());
    forall i | 0 <= i < |t.table| && IsUsed(t.kind, t.table[i])
      ensures IsUsed(s.kind, s.table[i]) && t.table[i] == s.table[i]
    {
    }
  }

  //////////////////////////////////////////////////////////////////////////////
  // An edit that does not survive a restart
  //////////////////////////////////////////////////////////////////////////////

  lemma AfterCreateGpt(ctx: ImgCtx, img: seq<byte>, mbrId: u32, id: u32, guid: Guid) returns (st: State)
    requires Ready(ctx) && Unsigned(ctx, img) && !M.Present(img)
    ensures Start(ctx, img, mbrId) && Runnable(ctx, InitialState(ctx, img, mbrId))
    ensures st == Run(ctx, InitialState(ctx, img, mbrId), [CreateGpt(id, guid), EnterProtective])
    ensures st == State(Ctx(Some(NewProtective(ctx, id)), Some(NewGpt(ctx, guid)), false, false), Some(Kind.Mbr), img)
  {
    BlankStart(ctx, img, mbrId);
    LoadedRunnable(ctx, img, mbrId);
    st := CreateAndEnter(ctx, InitialState(ctx, img, mbrId), id, guid);
  }

  lemma CreateAndEnter(ctx: ImgCtx, st: State, id: u32, guid: Guid) returns (u: State)
    requires Ready(ctx) && Runnable(ctx, st)
    ensures u == Run(ctx, st, [CreateGpt(id, guid), EnterProtective])
    ensures u == State(st.c.(mbr := Some(NewProtective(ctx, id)), gpt := Some(NewGpt(ctx, guid))),
                       Some(Kind.Mbr), st.img)
  {
    var t;
    t, u := RunTwo(ctx, st, CreateGpt(id, guid), EnterProtective);
  }

  /** Retyping the protective partition and writing. */
  function LostEdit(): seq<Command> {
    [Modify(Retype(Number(1), Number(0x83), None)), Write]
  }

  lemma LostEditRuns(ctx: ImgCtx, st: State) returns (t: State, u: State)
    requires Ready(ctx) && Runnable(ctx, st) && Inv(ctx, st.c, st.img) && AllSafe(st.c)
    ensures t == Step(ctx, st, LostEdit()[0]) && Runnable(ctx, t) && Inv(ctx, t.c, t.img) && AllSafe(t.c)
    ensures u == Step(ctx, t, Write) && u == Run(ctx, st, LostEdit())
  {
    var e := LostEdit()[0];
    StepKeepsInv(ctx, st, e);
    StepKeepsSafe(ctx, st, e);
    t, u := RunTwo(ctx, st, e, Write);
  }

  lemma Retyping(ctx: ImgCtx, id: u32)
    requires Ready(ctx)
    ensures var s := EditSchem(NewProtective(ctx, id), ctx, Retype(Number(1), Number(0x83), None));
            |s.table| == M.MBR_PARTS && s.table[0].typeI == 0x83 && s.idI == id
  {
    var first: nat := 0;
    PartPromptIff(NewProtective(ctx, id), true, first);
  }

  /** The state after retyping in the protective MBR of a new GPT, and what is then written. */
  lemma LostEditState(ctx: ImgCtx, st: State, id: u32, again: u32) returns (u: State)
    requires Ready(ctx) && Runnable(ctx, st) && Inv(ctx, st.c, st.img) && AllSafe(st.c) && st.cur == Some(Kind.Mbr)
    requires st.c.mbr == Some(NewProtective(ctx, id)) && st.c.gpt.Some?
    ensures u == Run(ctx, st, LostEdit())
    ensures u.c.mbr.Some? && u.c.mbr.value.idI == id
    ensures |u.c.mbr.value.table| > 0 && u.c.mbr.value.table[0].typeI == 0x83
    ensures |u.img| == ctx.imgSz && LoadCtx(ctx, u.img, again).Some?
    ensures LoadCtx(ctx, u.img, again).value.mbr == Some(NewProtective(ctx, again))
  {
    var t;
    t, u := LostEditRuns(ctx, st);
    Retyping(ctx, id);
    SaveThenLoad(ctx, t.c, t.img, again);
  }

  /**
    On an image without signatures: create a GPT, enter its protective MBR, retype
    the first partition, write.  The MBR in memory has the new type; a new start
    of the program has a fresh protective MBR with a newly drawn identifier instead.
   */
  lemma RetypeIsLost(ctx: ImgCtx, img: seq<byte>, mbrId: u32, id: u32, guid: Guid, again: u32)
    requires Ready(ctx) && Unsigned(ctx, img) && !M.Present(img)
    ensures Start(ctx, img, mbrId) && Runnable(ctx, InitialState(ctx, img, mbrId))
    ensures var u := Run(ctx, InitialState(ctx, img, mbrId), [CreateGpt(id, guid), EnterProtective] + LostEdit());
            && u.c.mbr.Some? && u.c.mbr.value.idI == id
            && |u.c.mbr.value.table| > 0 && u.c.mbr.value.table[0].typeI == 0x83
            && LoadCtx(ctx, u.img, again).Some?
            && LoadCtx(ctx, u.img, again).value.mbr == Some(NewProtective(ctx, again))
  {
    var st := AfterCreateGpt(ctx, img, mbrId, id, guid);
    RunFlags(ctx, img, mbrId, [CreateGpt(id, guid), EnterProtective]);
    RunSafe(ctx, InitialState(ctx, img, mbrId), [CreateGpt(id, guid), EnterProtective]);
    RunConcat(ctx, InitialState(ctx, img, mbrId), [CreateGpt(id, guid), EnterProtective], LostEdit());
    var u := LostEditState(ctx, st, id, again);
  }
}
