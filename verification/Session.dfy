/**
  A session of the program: the command loop as a transition system
  (src/main.c:388-555).
 */
module Session {
  import opened Words
  import opened Guids
  import opened ImgCtxs
  import opened Schemes
  import opened GptStore
  import opened GptRecovery
  import opened GptTheorems
  import opened GptScheme
  import opened CtxModel
  import opened EditModel
  import M = MbrScheme

  /** "cur" is the kind of the scheme being edited, if there is one. */
  datatype State = State(c: Ctx, cur: Option<Kind>, img: seq<byte>)

  datatype Command =
    | Modify(e: Edit)
    | Write
    | CreateMbr(id: u32)
    | CreateGpt(id: u32, guid: Guid)
    | EnterProtective
    | ResetProtective(id: u32)
    | Return
    | Other

  function Slot(c: Ctx, kind: Kind): Option<Schem> {
    if kind.Mbr? then c.mbr else c.gpt
  }

  function WithSlot(c: Ctx, kind: Kind, s: Schem): Ctx {
    if kind.Mbr? then c.(mbr := Some(s)) else c.(gpt := Some(s))
  }

  /** Enough for every command: whatever was loaded meets it. */
  ghost predicate Runnable(ctx: ImgCtx, st: State)
    requires Validates(ctx)
  {
    |st.img| == ctx.imgSz && Shaped(ctx, st.c) && (st.cur.Some? ==> Slot(st.c, st.cur.value).Some?)
  }

  /** One command of the loop; quitting ends the run. */
  ghost function Step(ctx: ImgCtx, st: State, cmd: Command): State
    requires Ready(ctx) && Runnable(ctx, st)
  {
    match cmd
    case Modify(e) =>
      if st.cur.None? then st
      else st.(c := WithSlot(st.c, st.cur.value, EditSchem(Slot(st.c, st.cur.value).value, ctx, e)))
    case Write => State(Flagged(st.c), st.cur, SaveCtx(ctx, st.c, st.img))
    case CreateMbr(id) =>
      var c := New(ctx, st.c, Kind.Mbr, id, ZERO_GUID);
      State(c, GetType(c), st.img)
    case CreateGpt(id, guid) =>
      var c := New(ctx, st.c, Gpt, id, guid);
      State(c, GetType(c), st.img)
    case EnterProtective =>
      if st.cur == Some(Gpt) && st.c.mbr.Some? then st.(cur := Some(Kind.Mbr)) else st
    case ResetProtective(id) =>
      if st.c.gpt.Some? && st.c.mbr.Some? then st.(c := st.c.(mbr := Some(NewProtective(ctx, id)))) else st
    case Return => st.(cur := GetType(st.c))
    case Other => st
  }

  lemma StepKeepsRunnable(ctx: ImgCtx, st: State, cmd: Command)
    requires Ready(ctx) && Runnable(ctx, st)
    ensures Runnable(ctx, Step(ctx, st, cmd))
  {
    match cmd
    case Modify(e) =>
      if st.cur.Some? {
        EditKeepsShape(ctx, st, e);
      }
    case CreateMbr(id) => NewShaped(ctx, id, ZERO_GUID);
    case CreateGpt(id, guid) => NewShaped(ctx, id, guid);
    case ResetProtective(id) => NewShaped(ctx, id, ZERO_GUID);
    case _ =>
  }

  lemma EditKeepsShape(ctx: ImgCtx, st: State, e: Edit)
    requires Ready(ctx) && Runnable(ctx, st) && st.cur.Some?
    ensures Runnable(ctx, Step(ctx, st, Modify(e)))
  {
    var s := Slot(st.c, st.cur.value).value;
    if st.cur.value.Mbr? {
      EditMbrShaped(s, ctx, e);
    } else {
      EditStorable(s, ctx, e);
    }
  }

  /** A run: the commands of a session, one after another. */
  ghost function Run(ctx: ImgCtx, st: State, cmds: seq<Command>): (r: State)
    requires Ready(ctx) && Runnable(ctx, st)
    ensures Runnable(ctx, r)
    decreases |cmds|
  {
    if cmds == [] then st
    else
      StepKeepsRunnable(ctx, st, cmds[0]);
      Run(ctx, Step(ctx, st, cmds[0]), cmds[1..])
  }

  lemma {:induction false} RunConcat(ctx: ImgCtx, st: State, a: seq<Command>, b: seq<Command>)
    requires Ready(ctx) && Runnable(ctx, st)
    ensures Run(ctx, st, a + b) == Run(ctx, Run(ctx, st, a), b)
    decreases |a|
  {
    if a == [] {
      assert a + b == b;
    } else {
      assert (a + b)[1..] == a[1..] + b;
      StepKeepsRunnable(ctx, st, a[0]);
      RunConcat(ctx, Step(ctx, st, a[0]), a[1..], b);
    }
  }

  lemma RunTwo(ctx: ImgCtx, st: State, a: Command, b: Command) returns (t: State, u: State)
    requires Ready(ctx) && Runnable(ctx, st)
    ensures t == Step(ctx, st, a) && Runnable(ctx, t) && u == Step(ctx, t, b) && u == Run(ctx, st, [a, b])
  {
    StepKeepsRunnable(ctx, st, a);
    t := Step(ctx, st, a);
    StepKeepsRunnable(ctx, t, b);
    u := Step(ctx, t, b);
    assert [a, b][1..] == [b] && [b][1..] == [];
    assert Run(ctx, t, [b]) == Run(ctx, u, []);
  }

  /** The state in which the loop starts. */
  function InitialState(ctx: ImgCtx, img: seq<byte>, mbrId: u32): State
    requires Validates(ctx) && |img| == ctx.imgSz && LoadCtx(ctx, img, mbrId).Some?
  {
    var c := LoadCtx(ctx, img, mbrId).value;
    State(c, GetType(c), img)
  }

  /** Whatever image the program has loaded, the loop can start on it. */
  lemma LoadedRunnable(ctx: ImgCtx, img: seq<byte>, mbrId: u32)
    requires Validates(ctx) && |img| == ctx.imgSz && LoadCtx(ctx, img, mbrId).Some?
    ensures Runnable(ctx, InitialState(ctx, img, mbrId))
  {
    NewShaped(ctx, mbrId, ZERO_GUID);
    LoadedMbrShaped(ctx, img);
    if LoadSchem(ctx, img).LoadOk? {
      LoadedNamesChained(ctx, img);
    }
  }

  lemma NewSafe(ctx: ImgCtx, mbrId: u32, gptId: Guid)
    requires Validates(ctx)
    ensures Safe(M.NewMbr(ctx, mbrId)) && Safe(NewProtective(ctx, mbrId)) && Safe(NewGpt(ctx, gptId))
  {
    M.NewMbrUsable(ctx, mbrId);
    M.ProtectiveSafe(M.NewMbr(ctx, mbrId));
    NewGptUsable(ctx, gptId);
  }

  //////////////////////////////////////////////////////////////////////////////
  // Runs in which every search ends
  //////////////////////////////////////////////////////////////////////////////

  ghost predicate CanStep(st: State, cmd: Command) {
    cmd.Modify? && st.cur.Some? && Slot(st.c, st.cur.value).Some?
    ==> CanEdit(Slot(st.c, st.cur.value).value, cmd.e)
  }

  /** Every command of the run meets a table that it can search. */
  ghost predicate CanRun(ctx: ImgCtx, st: State, cmds: seq<Command>)
    requires Ready(ctx) && Runnable(ctx, st)
    decreases |cmds|
  {
    cmds == []
    || (CanStep(st, cmds[0])
        && (StepKeepsRunnable(ctx, st, cmds[0]); CanRun(ctx, Step(ctx, st, cmds[0]), cmds[1..])))
  }

  ghost predicate AllUnwrapped(c: Ctx) {
    (c.mbr.Some? ==> Unwrapped(c.mbr.value)) && (c.gpt.Some? ==> Unwrapped(c.gpt.value))
  }

  lemma StepUnwrapped(ctx: ImgCtx, st: State, cmd: Command)
    requires Ready(ctx) && Runnable(ctx, st) && AllUnwrapped(st.c)
    ensures AllUnwrapped(Step(ctx, st, cmd).c)
  {
    match cmd
    case Modify(e) =>
      if st.cur.Some? {
        EditUnwrapped(Slot(st.c, st.cur.value).value, ctx, e);
      }
    case CreateMbr(id) => NewUnwrapped(ctx, id, ZERO_GUID);
    case CreateGpt(id, guid) => NewUnwrapped(ctx, id, guid);
    case ResetProtective(id) => NewUnwrapped(ctx, id, ZERO_GUID);
    case _ =>
  }

  lemma SafeUnwrapped(s: Schem)
    requires Safe(s) && RangeSigned(s)
    ensures Unwrapped(s)
  {
    forall i | 0 <= i < |s.table| && IsUsed(s.kind, s.table[i])
      ensures !Wraps(s.table[i])
    {
      assert InRange(s, s.table[i]);
    }
  }

  lemma LastBelow(ctx: ImgCtx, lba: nat)
    requires Validates(ctx) && LbaToByte(ctx, lba) <= ctx.imgSz
    ensures lba < 0x8000_0000_0000_0000
  {
    MulMono(lba, 512, ctx.secSz);
  }

  lemma NewUnwrapped(ctx: ImgCtx, mbrId: u32, gptId: Guid)
    requires Validates(ctx)
    ensures Unwrapped(M.NewMbr(ctx, mbrId)) && Unwrapped(NewProtective(ctx, mbrId)) && Unwrapped(NewGpt(ctx, gptId))
  {
    NewSafe(ctx, mbrId, gptId);
    NewGptUsable(ctx, gptId);
    Places(ctx);
    LastBelow(ctx, NewGpt(ctx, gptId).last);
    SafeUnwrapped(M.NewMbr(ctx, mbrId));
    SafeUnwrapped(NewProtective(ctx, mbrId));
    SafeUnwrapped(NewGpt(ctx, gptId));
  }

  /** From tables without such a partition, overlapping and out of range as they may be, any commands can run. */
  lemma {:induction false} UnwrappedCanRun(ctx: ImgCtx, st: State, cmds: seq<Command>)
    requires Ready(ctx) && Runnable(ctx, st) && AllUnwrapped(st.c)
    ensures CanRun(ctx, st, cmds)
    decreases |cmds|
  {
    if cmds != [] {
      if cmds[0].Modify? && st.cur.Some? {
        UnwrappedCanEdit(Slot(st.c, st.cur.value).value, cmds[0].e);
      }
      StepKeepsRunnable(ctx, st, cmds[0]);
      StepUnwrapped(ctx, st, cmds[0]);
      UnwrappedCanRun(ctx, Step(ctx, st, cmds[0]), cmds[1..]);
    }
  }
}
