/** The command loop (src/main.c:178-555): what each command does to the schemes in memory and to the image. */
module EditProgram {
  import opened Words
  import Crc32
  import opened Guids
  import opened ImgCtxs
  import opened Schemes
  import opened GptStore
  import opened CtxModel
  import opened CtxProgram
  import opened EditModel
  import opened EditLaws
  import opened Session
  import M = MbrScheme

  //////////////////////////////////////////////////////////////////////////////
  // Editing one scheme
  //////////////////////////////////////////////////////////////////////////////

  method Prompt(lo: nat, hi: nat, default: nat, input: Input) returns (r: Option<nat>)
    ensures r == PromptRange(lo, hi, default, input)
  {
    if input.Empty? {
      return Some(default);
    }
    if input.Unreadable? {
      return None;
    }
    if input.n < lo || input.n > hi {
      return None;
    }
    return Some(input.n);
  }

  method PromptPart(s: Scheme, used: bool, input: Input) returns (r: Option<nat>)
    ensures r == PartPrompt(s.Value(), used, input)
  {
    var default := s.FindPartIndex(used);
    FirstSlotMeaning(s.Value(), used, 0);
    if default == -1 {
      return None;
    }
    var number := Prompt(1, |s.table|, default + 1, input);
    if number.None? {
      return None;
    }
    var i := number.value - 1;
    var isUsed := IsUsed(s.kind, s.table[i]);
    if used && !isUsed {
      return None;
    }
    if !used && isUsed {
      return None;
    }
    return Some(i);
  }

  method DeletePart(s: Scheme, ctx: ImgCtx, slot: Input)
    requires ctx.align > 0
    modifies s
    ensures s.Value() == EditSchem(old(s.Value()), ctx, Delete(slot))
  {
    var i := PromptPart(s, true, slot);
    if i.Some? {
      s.table := s.table[i.value := NoPart()];
    }
  }

  method ToggleBootFlag(s: Scheme, ctx: ImgCtx, slot: Input)
    requires ctx.align > 0
    modifies s
    ensures s.Value() == EditSchem(old(s.Value()), ctx, ToggleBoot(slot))
  {
    if s.kind != Kind.Mbr {
      return;
    }
    var i := PromptPart(s, true, slot);
    if i.Some? {
      var p := s.table[i.value];
      s.table := s.table[i.value := p.(bootInd := if p.bootInd >= 0x80 then 0 else 0x80)];
    }
  }

  method ChangeType(s: Scheme, ctx: ImgCtx, slot: Input, typ: Input, guid: Option<Guid>)
    requires ctx.align > 0
    modifies s
    ensures s.Value() == EditSchem(old(s.Value()), ctx, Retype(slot, typ, guid))
  {
    var i := PromptPart(s, true, slot);
    if i.None? {
      return;
    }
    match s.kind
    case Mbr =>
      if typ.Number? && typ.n <= 0xFF {
        s.table := s.table[i.value := s.table[i.value].(typeI := typ.n)];
      }
    case Gpt =>
      if guid.Some? {
        s.table := s.table[i.value := s.table[i.value].(typeGuid := guid.value)];
      }
  }

  /** The dialogue that settles on a stretch of sectors for slot "i". */
  method PromptStretch(s: Scheme, ctx: ImgCtx, i: nat, start: Input, end: Input) returns (r: Option<(nat, nat)>)
    requires Ready(ctx) && Searchable(s.Value(), i) && i < |s.table|
    ensures r == Stretch(s.Value(), ctx, i, start, end)
  {
    var from := s.FindStartSector(ctx, i);
    if from == -1 {
      return None;
    }
    var a := Prompt(s.first, s.last, from, start);
    if a.None? {
      return None;
    }
    var to := s.FindLastSector(ctx, i, a.value);
    if to == -1 {
      return None;
    }
    var b := Prompt(a.value, s.last, to, end);
    if b.None? {
      return None;
    }
    var other := s.FindOverlap(a.value, b.value, i);
    if other >= 0 {
      return None;
    }
    return Some((a.value, b.value));
  }

  function AlterEdit(isNew: bool, slot: Input, start: Input, end: Input, unique: Guid): Edit {
    if isNew then Add(slot, start, end, unique) else Resize(slot, start, end)
  }

  /** A new partition is initialized only once its stretch is settled. */
  method AlterSlot(s: Scheme, ctx: ImgCtx, i: nat, isNew: bool, start: Input, end: Input, unique: Guid)
    requires Ready(ctx) && Searchable(s.Value(), i) && i < |s.table|
    modifies s
    ensures s.Value() == Alter(old(s.Value()), ctx, i,
                               if isNew then NewPart(old(s.kind), unique) else old(s.table[i]), start, end)
  {
    StretchBounds(s.Value(), ctx, i, start, end);
    var ab := PromptStretch(s, ctx, i, start, end);
    if ab.None? {
      return;
    }
    if isNew {
      s.table := s.table[i := NewPart(s.kind, unique)];
    }
    s.table := s.table[i := s.table[i].(startLba := ab.value.0, endLba := ab.value.1)];
  }

  /** Adds or resizes a partition. */
  method AlterPart(s: Scheme, ctx: ImgCtx, isNew: bool, slot: Input, start: Input, end: Input, unique: Guid)
    requires Ready(ctx) && CanEdit(s.Value(), AlterEdit(isNew, slot, start, end, unique))
    modifies s
    ensures s.Value() == EditSchem(old(s.Value()), ctx, AlterEdit(isNew, slot, start, end, unique))
  {
    var i := PromptPart(s, !isNew, slot);
    if i.Some? {
      AlterSlot(s, ctx, i.value, isNew, start, end, unique);
    }
  }

  /** Dispatches an edit command. */
  method EditOne(s: Scheme, ctx: ImgCtx, e: Edit)
    requires Ready(ctx) && CanEdit(s.Value(), e)
    modifies s
    ensures s.Value() == EditSchem(old(s.Value()), ctx, e)
  {
    match e
    case Add(slot, start, end, unique) => AlterPart(s, ctx, true, slot, start, end, unique);
    case Resize(slot, start, end) => AlterPart(s, ctx, false, slot, start, end, ZERO_GUID);
    case Retype(slot, typ, guid) => ChangeType(s, ctx, slot, typ, guid);
    case ToggleBoot(slot) => ToggleBootFlag(s, ctx, slot);
    case Delete(slot) => DeletePart(s, ctx, slot);
  }

  //////////////////////////////////////////////////////////////////////////////
  // The loop
  //////////////////////////////////////////////////////////////////////////////

  method ResetProt(c: SchemCtx, ctx: ImgCtx, id: u32)
    requires Validates(ctx) && c.Valid() && c.mbr != null && c.mbr.idGuid == ZERO_GUID
    modifies c.mbr
    ensures c.Value() == old(c.Value()).(mbr := Some(NewProtective(ctx, id)))
  {
    M.InitMbr(c.mbr, ctx, id);
    M.SetProt(c.mbr);
  }

  method Modify(c: SchemCtx, ctx: ImgCtx, cur: Option<Kind>, e: Edit)
    requires Ready(ctx) && c.Valid() && (cur.Some? ==> Slot(c.Value(), cur.value).Some?)
    requires cur.Some? ==> CanEdit(Slot(c.Value(), cur.value).value, e)
    modifies c.mbr, c.gpt
    ensures cur.None? ==> c.Value() == old(c.Value())
    ensures cur.Some? ==> c.Value() == WithSlot(old(c.Value()), cur.value,
                                                EditSchem(Slot(old(c.Value()), cur.value).value, ctx, e))
  {
    if cur.None? {
      return;
    }
    var s := if cur.value.Mbr? then c.mbr else c.gpt;
    EditOne(s, ctx, e);
  }

  /** The commands that do not edit a table. */
  method Dispatch(t: Crc32.Table, c: SchemCtx, ctx: ImgCtx, img: array<byte>, cur: Option<Kind>, cmd: Command,
                  ghost st: State)
    returns (r: Option<Kind>)
    requires t.Valid() && c.Valid() && Ready(ctx) && st == State(c.Value(), cur, img[..]) && Runnable(ctx, st)
    requires !cmd.Modify?
    modifies c, c.mbr, img, t.entries
    ensures t.Valid() && c.Valid() && State(c.Value(), r, img[..]) == Step(ctx, st, cmd)
    ensures c.mbr == null || c.mbr == old(c.mbr) || fresh(c.mbr)
    ensures c.gpt == null || c.gpt == old(c.gpt) || fresh(c.gpt)
  {
    r := cur;
    match cmd
    case Write =>
      c.Save(t, ctx, img);
    case CreateMbr(id) =>
      c.New(ctx, Kind.Mbr, id, ZERO_GUID);
      r := c.CurrentType();
    case CreateGpt(id, guid) =>
      c.New(ctx, Gpt, id, guid);
      r := c.CurrentType();
    case EnterProtective =>
      if cur == Some(Gpt) && c.mbr != null {
        r := Some(Kind.Mbr);
      }
    case ResetProtective(id) =>
      if c.gpt != null && c.mbr != null {
        ResetProt(c, ctx, id);
      }
    case Return =>
      r := c.CurrentType();
    case Other =>
  }

  /** One command; "st" is the state before it. */
  method HandleAction(t: Crc32.Table, c: SchemCtx, ctx: ImgCtx, img: array<byte>, cur: Option<Kind>, cmd: Command,
                      ghost st: State)
    returns (r: Option<Kind>)
    requires t.Valid() && c.Valid() && Ready(ctx) && st == State(c.Value(), cur, img[..]) && Runnable(ctx, st)
    requires CanStep(st, cmd)
    modifies c, c.mbr, c.gpt, img, t.entries
    ensures t.Valid() && c.Valid() && State(c.Value(), r, img[..]) == Step(ctx, st, cmd)
    ensures c.mbr == null || c.mbr == old(c.mbr) || fresh(c.mbr)
    ensures c.gpt == null || c.gpt == old(c.gpt) || fresh(c.gpt)
  {
    if cmd.Modify? {
      Modify(c, ctx, cur, cmd.e);
      r := cur;
    } else {
      r := Dispatch(t, c, ctx, img, cur, cmd, st);
    }
  }

  /** The commands up to the end of the input. */
  method RunSession(t: Crc32.Table, c: SchemCtx, ctx: ImgCtx, img: array<byte>, cmds: seq<Command>)
    returns (cur: Option<Kind>)
    requires t.Valid() && c.Valid() && Ready(ctx)
    requires Runnable(ctx, State(c.Value(), GetType(c.Value()), img[..]))
    requires CanRun(ctx, State(c.Value(), GetType(c.Value()), img[..]), cmds)
    modifies c, c.mbr, c.gpt, img, t.entries
    ensures t.Valid() && c.Valid()
    ensures State(c.Value(), cur, img[..]) == Run(ctx, old(State(c.Value(), GetType(c.Value()), img[..])), cmds)
  {
    cur := c.CurrentType();
    ghost var start := State(c.Value(), cur, img[..]);
    ghost var st := start;
    for i := 0 to |cmds|
      invariant t.Valid() && c.Valid() && st == State(c.Value(), cur, img[..])
      invariant Runnable(ctx, st) && Run(ctx, st, cmds[i..]) == Run(ctx, start, cmds)
      invariant CanRun(ctx, st, cmds[i..])
      invariant c.mbr == null || c.mbr == old(c.mbr) || fresh(c.mbr)
      invariant c.gpt == null || c.gpt == old(c.gpt) || fresh(c.gpt)
    {
      StepKeepsRunnable(ctx, st, cmds[i]);
      assert cmds[i..][1..] == cmds[i + 1..];
      cur := HandleAction(t, c, ctx, img, cur, cmds[i], st);
      st := Step(ctx, st, cmds[i]);
    }
  }
}
