/**
  The edit commands as a state machine: the schemes in memory, the one that is
  being edited, and the image (src/main.c:178-386, 388-518).  User input is any
  input at all; random values are part of the command that draws them.
 */
module EditModel {
  import opened Guids
  import opened ImgCtxs
  import opened Schemes
  import opened SectorSearch
  import opened GptTheorems
  import opened GptScheme
  import opened CtxModel
  import M = MbrScheme

  //////////////////////////////////////////////////////////////////////////////
  // Prompts
  //////////////////////////////////////////////////////////////////////////////

  /** An empty line takes the default; anything unreadable is turned down. */
  datatype Input = Empty | Number(n: nat) | Unreadable

  function PromptRange(lo: nat, hi: nat, default: nat, input: Input): Option<nat> {
    match input
    case Empty => Some(default)
    case Number(n) => if lo <= n <= hi then Some(n) else None
    case Unreadable => None
  }

  /** The first slot whose use is as asked for, or -1. */
  function FirstSlot(s: Schem, used: bool, from: nat): int
    requires from <= |s.table|
    decreases |s.table| - from
  {
    if from == |s.table| then -1
    else if IsUsed(s.kind, s.table[from]) == used then from
    else FirstSlot(s, used, from + 1)
  }

  function PartPrompt(s: Schem, used: bool, input: Input): (r: Option<nat>)
    ensures r.Some? ==> r.value < |s.table| && IsUsed(s.kind, s.table[r.value]) == used
  {
    var def := FirstSlot(s, used, 0);
    if def < 0 then None
    else
      match PromptRange(1, |s.table|, def + 1, input)
      case None => None
      case Some(n) =>
        if 1 <= n <= |s.table| && IsUsed(s.kind, s.table[n - 1]) == used then Some(n - 1) else None
  }

  //////////////////////////////////////////////////////////////////////////////
  // Editing one scheme
  //////////////////////////////////////////////////////////////////////////////

  datatype Edit =
    | Add(slot: Input, start: Input, end: Input, unique: Guid)
    | Resize(slot: Input, start: Input, end: Input)
    | Retype(slot: Input, typ: Input, guid: Option<Guid>)
    | ToggleBoot(slot: Input)
    | Delete(slot: Input)

  function NewPart(kind: Kind, unique: Guid): Part {
    if kind.Mbr? then M.NewMbrPart() else NewGptPart(unique)
  }

  /** The stretch that the user settles on for slot "i", if the dialogue gets that far and it is clear. */
  ghost function Stretch(s: Schem, ctx: ImgCtx, i: nat, start: Input, end: Input): Option<(nat, nat)>
    requires ctx.align > 0
  {
    var from := StartOffered(s, ctx, i);
    if from < 0 then None
    else
      match PromptRange(s.first, s.last, from, start)
      case None => None
      case Some(a) =>
        var to := LastSector(s, ctx, i, a);
        if to < 0 then None
        else
          match PromptRange(a, s.last, to, end)
          case None => None
          case Some(b) => if Clear(s, i, a, b) then Some((a, b)) else None
  }

  /** Writes a stretch into a slot. */
  function Place(s: Schem, i: nat, p: Part, stretch: (nat, nat)): Schem
    requires i < |s.table| && stretch.0 < 0x1_0000_0000_0000_0000 && stretch.1 < 0x1_0000_0000_0000_0000
  {
    s.(table := s.table[i := p.(startLba := stretch.0, endLba := stretch.1)])
  }

  lemma StretchBounds(s: Schem, ctx: ImgCtx, i: nat, start: Input, end: Input)
    requires ctx.align > 0
    ensures var r := Stretch(s, ctx, i, start, end);
            r.Some? ==> s.first <= r.value.0 <= r.value.1 <= s.last && Clear(s, i, r.value.0, r.value.1)
  {
    if s.first <= s.last {
      StartIsFree(s, ctx, i);
    }
    var r := Stretch(s, ctx, i, start, end);
    if r.Some? {
      LastSectorFails(s, ctx, i, r.value.0);
      BoundFacts(s, i, r.value.0, |s.table|);
      SegmentEndFacts(ctx, Bound(s, i, r.value.0, |s.table|));
    }
  }

  ghost function Alter(s: Schem, ctx: ImgCtx, i: nat, p: Part, start: Input, end: Input): Schem
    requires ctx.align > 0 && i < |s.table|
  {
    StretchBounds(s, ctx, i, start, end);
    match Stretch(s, ctx, i, start, end)
    case None => s
    case Some(ab) => Place(s, i, p, ab)
  }

  /** MBR asks for a number of at most one byte, GPT for a GUID; None is a GUID that cannot be read. */
  function Retyped(kind: Kind, p: Part, typ: Input, guid: Option<Guid>): Part {
    match kind
    case Mbr => if typ.Number? && typ.n <= 0xFF then p.(typeI := typ.n) else p
    case Gpt => if guid.Some? then p.(typeGuid := guid.value) else p
  }

  /** One edit command on the scheme being edited. */
  ghost function EditSchem(s: Schem, ctx: ImgCtx, e: Edit): Schem
    requires ctx.align > 0
  {
    match e
    case Add(slot, start, end, unique) =>
      (match PartPrompt(s, false, slot)
       case None => s
       case Some(i) => Alter(s, ctx, i, NewPart(s.kind, unique), start, end))
    case Resize(slot, start, end) =>
      (match PartPrompt(s, true, slot)
       case None => s
       case Some(i) => Alter(s, ctx, i, s.table[i], start, end))
    case Retype(slot, typ, guid) =>
      (match PartPrompt(s, true, slot)
       case None => s
       case Some(i) => s.(table := s.table[i := Retyped(s.kind, s.table[i], typ, guid)]))
    case ToggleBoot(slot) =>
      if s.kind.Gpt? then s
      else
        (match PartPrompt(s, true, slot)
         case None => s
         case Some(i) =>
           s.(table := s.table[i := s.table[i].(bootInd := if s.table[i].bootInd >= 0x80 then 0 else 0x80)]))
    case Delete(slot) =>
      (match PartPrompt(s, true, slot)
       case None => s
       case Some(i) => s.(table := s.table[i := NoPart()]))
  }

  /** Adding and resizing search for a start sector; nothing else does arithmetic on the table. */
  ghost predicate CanEdit(s: Schem, e: Edit) {
    e.Add? || e.Resize? ==>
      var i := PartPrompt(s, e.Resize?, e.slot);
      i.Some? ==> Searchable(s, i.value)
  }

  //////////////////////////////////////////////////////////////////////////////
  // Edits keep a scheme safe and savable
  //////////////////////////////////////////////////////////////////////////////

  /** The slot changes, everything else about the scheme stays. */
  ghost predicate OneSlot(s: Schem, t: Schem, i: nat) {
    i < |s.table| == |t.table| && t == s.(table := s.table[i := t.table[i]])
  }

  /** A slot that is freed, or keeps its stretch, keeps the scheme safe. */
  lemma SafeShrinks(s: Schem, t: Schem, i: nat)
    requires Safe(s) && OneSlot(s, t, i)
    requires IsUsed(s.kind, t.table[i]) ==> IsUsed(s.kind, s.table[i])
    requires IsUsed(s.kind, t.table[i])
             ==> t.table[i].startLba == s.table[i].startLba && t.table[i].endLba == s.table[i].endLba
    ensures Safe(t)
  {
  }

  /** A slot that takes a clear stretch in range keeps the scheme safe. */
  lemma SafePlaced(s: Schem, t: Schem, i: nat)
    requires Safe(s) && OneSlot(s, t, i) && InRange(t, t.table[i])
    requires Clear(s, i, t.table[i].startLba, t.table[i].endLba)
    ensures Safe(t)
  {
    var p := t.table[i];
    forall j | 0 <= j < |s.table| && j != i && IsUsed(s.kind, s.table[j])
      ensures Apart(p, s.table[j]) && Apart(s.table[j], p)
    {
      assert Other(s, i, j);
      assert InRange(s, s.table[j]);
      TouchesIsSharing(s.table[j], p.startLba, p.endLba);
    }
  }

  lemma AlterSafe(s: Schem, ctx: ImgCtx, i: nat, p: Part, start: Input, end: Input)
    requires Safe(s) && ctx.align > 0 && i < |s.table|
    ensures Safe(Alter(s, ctx, i, p, start, end))
  {
    StretchBounds(s, ctx, i, start, end);
    if Stretch(s, ctx, i, start, end).Some? {
      SafePlaced(s, Alter(s, ctx, i, p, start, end), i);
    }
  }

  /** Whatever the user types, used partitions stay well formed, in range and disjoint. */
  lemma EditSafe(s: Schem, ctx: ImgCtx, e: Edit)
    requires Safe(s) && ctx.align > 0
    ensures Safe(EditSchem(s, ctx, e))
  {
    var t := EditSchem(s, ctx, e);
    match e
    case Add(slot, start, end, unique) =>
      var i := PartPrompt(s, false, slot);
      if i.Some? {
        AlterSafe(s, ctx, i.value, NewPart(s.kind, unique), start, end);
      }
    case Resize(slot, start, end) =>
      var i := PartPrompt(s, true, slot);
      if i.Some? {
        AlterSafe(s, ctx, i.value, s.table[i.value], start, end);
      }
    case _ =>
      var i := PartPrompt(s, true, e.slot);
      if i.Some? && t != s {
        assert !IsUsed(s.kind, NoPart());
        SafeShrinks(s, t, i.value);
      }
  }

  lemma EditShape(s: Schem, ctx: ImgCtx, e: Edit)
    requires ctx.align > 0
    ensures var t := EditSchem(s, ctx, e);
            t == s || exists i :: 0 <= i < |s.table| && OneSlot(s, t, i) && SlotEdit(s, t, i)
  {
    var t := EditSchem(s, ctx, e);
    var i := PartPrompt(s, !e.Add?, e.slot);
    if i.Some? && t != s {
      assert OneSlot(s, t, i.value) && SlotEdit(s, t, i.value);
    }
  }

  /** What an edit may do to a slot. */
  ghost predicate SlotEdit(s: Schem, t: Schem, i: nat)
    requires i < |s.table| == |t.table|
  {
    var p, q := s.table[i], t.table[i];
    || q == NoPart()
    || (exists unique :: q == NewPart(s.kind, unique).(startLba := q.startLba, endLba := q.endLba))
    || (IsUsed(s.kind, p) && s.kind.Mbr?
        && q == p.(startLba := q.startLba, endLba := q.endLba, typeI := q.typeI, bootInd := q.bootInd))
    || (IsUsed(s.kind, p) && s.kind.Gpt? && q == p.(startLba := q.startLba, endLba := q.endLba, typeGuid := q.typeGuid))
  }

  /** Edits keep names chained and leave the fields of the other kind alone. */
  lemma EditStorable(s: Schem, ctx: ImgCtx, e: Edit)
    requires Storable(s) && ctx.align > 0
    ensures Storable(EditSchem(s, ctx, e))
  {
    EditShape(s, ctx, e);
    var t := EditSchem(s, ctx, e);
    if t != s {
      var i :| 0 <= i < |s.table| && OneSlot(s, t, i) && SlotEdit(s, t, i);
      NoNameChained();
    }
  }

  lemma EditMbrShaped(s: Schem, ctx: ImgCtx, e: Edit)
    requires Validates(ctx) && M.MbrShaped(s, ctx) && ctx.align > 0
    ensures M.MbrShaped(EditSchem(s, ctx, e), ctx)
  {
    EditShape(s, ctx, e);
    var t := EditSchem(s, ctx, e);
    if t != s {
      var i :| 0 <= i < |s.table| && OneSlot(s, t, i) && SlotEdit(s, t, i);
    }
  }

  //////////////////////////////////////////////////////////////////////////////
  // Tables on which every edit can be made
  //////////////////////////////////////////////////////////////////////////////

  /** The range stays below 2^63, and the sector behind each partition fits into 64 bits. */
  ghost predicate Unwrapped(s: Schem) {
    RangeSigned(s) && forall i :: 0 <= i < |s.table| && IsUsed(s.kind, s.table[i]) ==> !Wraps(s.table[i])
  }

  lemma UnwrappedCanEdit(s: Schem, e: Edit)
    requires Unwrapped(s)
    ensures CanEdit(s, e)
  {
  }

  lemma EditUnwrapped(s: Schem, ctx: ImgCtx, e: Edit)
    requires Unwrapped(s) && ctx.align > 0
    ensures Unwrapped(EditSchem(s, ctx, e))
  {
    if e.Add? || e.Resize? {
      var i := PartPrompt(s, e.Resize?, e.slot);
      if i.Some? {
        StretchBounds(s, ctx, i.value, e.start, e.end);
      }
    } else {
      assert !IsUsed(s.kind, NoPart());
    }
  }
}
