/**
  What the edit commands achieve: which input takes effect, and which commands
  undo each other (src/main.c:178-386).
 */
module EditLaws {
  import opened Words
  import opened Guids
  import opened ImgCtxs
  import opened Schemes
  import opened SectorSearch
  import opened GptScheme
  import opened CtxModel
  import opened EditModel
  import M = MbrScheme

  lemma {:induction false} FirstSlotMeaning(s: Schem, used: bool, from: nat)
    requires from <= |s.table|
    ensures var r := FirstSlot(s, used, from);
            if r < 0 then r == -1 && forall i :: from <= i < |s.table| ==> IsUsed(s.kind, s.table[i]) != used
            else from <= r < |s.table| && IsUsed(s.kind, s.table[r]) == used
                 && forall i :: from <= i < r ==> IsUsed(s.kind, s.table[i]) != used
    decreases |s.table| - from
  {
    if from < |s.table| {
      FirstSlotMeaning(s, used, from + 1);
    }
  }

  /** A typed number chooses its slot exactly if the slot's use is as asked for. */
  lemma PartPromptIff(s: Schem, used: bool, i: nat)
    ensures PartPrompt(s, used, Number(i + 1))
            == if i < |s.table| && IsUsed(s.kind, s.table[i]) == used then Some(i) else None
  {
    FirstSlotMeaning(s, used, 0);
  }

  /** The default is the first such slot; there is none to choose exactly if no slot is. */
  lemma PartPromptDefault(s: Schem, used: bool)
    ensures var r := PartPrompt(s, used, Empty);
            && (r.None? <==> forall i :: 0 <= i < |s.table| ==> IsUsed(s.kind, s.table[i]) != used)
            && (r.Some? ==> forall i :: 0 <= i < r.value ==> IsUsed(s.kind, s.table[i]) != used)
  {
    FirstSlotMeaning(s, used, 0);
  }

  /** A typed stretch is accepted exactly if it is in range and clear of the other partitions. */
  lemma StretchIff(s: Schem, ctx: ImgCtx, i: nat, a: nat, b: nat)
    requires ctx.align > 0 && i < |s.table|
    ensures Stretch(s, ctx, i, Number(a), Number(b))
            == if s.first <= a <= b <= s.last && Clear(s, i, a, b) then Some((a, b)) else None
  {
    StartIsFree(s, ctx, i);
    LastSectorFails(s, ctx, i, a);
    if s.first <= a <= b <= s.last && Clear(s, i, a, b) {
      ClearIsFree(s, i, a, b);
    }
  }

  lemma ClearIsFree(s: Schem, i: nat, a: nat, b: nat)
    requires Clear(s, i, a, b)
    ensures Free(s, i, a)
  {
    forall j: nat | Other(s, i, j)
      ensures !Covers(s.table[j], a)
    {
      assert !Touches(s.table[j], a, b);
    }
  }

  /**
    Accepting every default adds the partition that is offered if and only if a
    slot and a sector are free and no partition is missed that decides the end;
    otherwise nothing changes.
   */
  lemma DefaultsAddIff(s: Schem, ctx: ImgCtx, unique: Guid)
    requires Safe(s) && ctx.align > 0
    ensures var slot := PartPrompt(s, false, Empty);
            var t := EditSchem(s, ctx, Add(Empty, Empty, Empty, unique));
            if slot.Some? && StartSector(s, ctx, slot.value) != -1
               && OfferFits(s, ctx, slot.value, StartSector(s, ctx, slot.value))
            then OneSlot(s, t, slot.value) && IsUsed(s.kind, t.table[slot.value])
                 && t.table[slot.value].startLba == StartSector(s, ctx, slot.value)
                 && t.table[slot.value].endLba == LastSector(s, ctx, slot.value, StartSector(s, ctx, slot.value))
            else t == s
  {
    var slot := PartPrompt(s, false, Empty);
    if slot.Some? {
      StartIsFree(s, ctx, slot.value);
      var from := StartSector(s, ctx, slot.value);
      if from != -1 {
        OfferedEndOverlapsIff(s, ctx, slot.value, from);
        LastSectorExact(s, ctx, slot.value, from);
      }
      NewIsUsed(s.kind, unique);
    }
  }

  /** The smallest image that is accepted, with the default geometry. */
  function SmallCtx(): ImgCtx {
    ImgCtx(512, 0x8_0000, 2048, 255, 63)
  }

  /** A new MBR scheme on it has four slots for sectors 1..1023. */
  lemma SmallScheme(id: u32)
    ensures Ready(SmallCtx())
    ensures var s := M.NewMbr(SmallCtx(), id);
            Safe(s) && s.first == 1 && s.last == 1023 && |s.table| == 4 && s.kind.Mbr?
            && forall i :: 0 <= i < 4 ==> !IsUsed(s.kind, s.table[i])
  {
    M.NewMbrUsable(SmallCtx(), id);
  }

  /** With a partition on the last sector alone, the search offers all of the range. */
  lemma SmallOffer(s: Schem, p: Part)
    requires s.kind.Mbr? && s.first == 1 && s.last == 1023 && |s.table| == 4 && s.table[3] == p
    requires IsUsed(s.kind, p) && p.startLba == p.endLba == 1023
    requires forall i :: 0 <= i < 3 ==> !IsUsed(s.kind, s.table[i])
    ensures StartSector(s, SmallCtx(), 0) == 1 && !OfferFits(s, SmallCtx(), 0, 1)
  {
    var slot: nat, from: nat, k: nat := 0, 1, 3;
    assert Free(s, slot, from);
    LeastFreeUnique(s, slot, s.first, from);
    AlignUp(SmallCtx(), from);
    SegmentEndFacts(SmallCtx(), 1023);
    assert Lowest(s, slot, from, k) && Missed(s, slot, from, k);
  }

  /**
    The defaults fail on a table that the program itself makes: on a new MBR
    scheme, put a partition on the last usable sector into slot 4; after that
    accepting every default offers sectors 1..1023 and adds nothing.
   */
  lemma DefaultsFail(id: u32, unique: Guid)
    ensures Ready(SmallCtx())
    ensures var e := Add(Number(4), Number(1023), Number(1023), unique);
            var s := EditSchem(M.NewMbr(SmallCtx(), id), SmallCtx(), e);
            && Safe(s) && |s.table| == 4 && IsUsed(s.kind, s.table[3])
            && s.table[3].startLba == s.table[3].endLba == 1023
            && PartPrompt(s, false, Empty) == Some(0) && StartSector(s, SmallCtx(), 0) == 1
            && EditSchem(s, SmallCtx(), Add(Empty, Empty, Empty, unique)) == s
  {
    SmallScheme(id);
    var s0, ctx := M.NewMbr(SmallCtx(), id), SmallCtx();
    var slot: nat, last: nat := 3, 1023;
    assert Clear(s0, slot, last, last);
    DeleteUndoesAdd(s0, ctx, slot, last, last, unique);
    var e := Add(Number(4), Number(1023), Number(1023), unique);
    EditSafe(s0, ctx, e);
    PartPromptIff(s0, false, slot);
    var s := EditSchem(s0, ctx, e);
    assert forall i :: 0 <= i < 3 ==> s.table[i] == s0.table[i];
    SmallOffer(s, s.table[3]);
    PartPromptDefault(s, false);
    var i: nat := 0;
    assert !IsUsed(s.kind, s.table[i]);
    DefaultsAddIff(s, ctx, unique);
  }

  lemma NewIsUsed(kind: Kind, unique: Guid)
    ensures IsUsed(kind, NewPart(kind, unique))
  {
    assert DefaultType().timeLo != ZERO_GUID.timeLo;
  }

  /** A line that chooses no slot changes nothing, whatever follows it. */
  lemma NoSlotNoEdit(s: Schem, ctx: ImgCtx, e: Edit)
    requires ctx.align > 0
    requires match e.slot
             case Empty => forall i :: 0 <= i < |s.table| ==> IsUsed(s.kind, s.table[i]) == e.Add?
             case Number(n) => n == 0 || n > |s.table| || IsUsed(s.kind, s.table[n - 1]) == e.Add?
             case Unreadable => true
    ensures EditSchem(s, ctx, e) == s
  {
    FirstSlotMeaning(s, !e.Add?, 0);
  }

  /** An unreadable bound is turned down. */
  lemma BoundUnreadable(s: Schem, ctx: ImgCtx, i: nat, a: Input, b: Input)
    requires ctx.align > 0 && i < |s.table| && (a.Unreadable? || b.Unreadable?)
    ensures Stretch(s, ctx, i, a, b).None?
  {
  }

  /** An empty line is the number that is offered. */
  lemma StartTyped(s: Schem, ctx: ImgCtx, i: nat, b: Input)
    requires ctx.align > 0 && s.first <= s.last && i < |s.table|
    ensures var from := StartSector(s, ctx, i);
            Stretch(s, ctx, i, Empty, b) == if from < 0 then None else Stretch(s, ctx, i, Number(from), b)
  {
    StartIsFree(s, ctx, i);
  }

  lemma EndTyped(s: Schem, ctx: ImgCtx, i: nat, a: nat)
    requires ctx.align > 0 && s.first <= a <= s.last && i < |s.table|
    ensures var to := LastSector(s, ctx, i, a);
            to >= 0 && Stretch(s, ctx, i, Number(a), Empty) == Stretch(s, ctx, i, Number(a), Number(to))
  {
    LastSectorExact(s, ctx, i, a);
  }

  /** The partition that is added: of the default type, with the drawn GUID, and nothing else set. */
  function Added(kind: Kind, a: u64, b: u64, unique: Guid): Part {
    match kind
    case Mbr => PartFields(0x83, ZERO_GUID, ZERO_GUID, a, b, 0, ZeroName(), 0)
    case Gpt =>
      var linux := GuidFields(0x0FC63DAF, 0x8483, 0x4772, 0x8E, 0x79, [0x3D, 0x69, 0xD8, 0x47, 0x7D, 0xE4]);
      PartFields(0, linux, unique, a, b, 0, ZeroName(), 0)
  }

  /** A typed stretch is added exactly if the slot exists and is free, and the stretch in range and clear. */
  lemma AddIff(s: Schem, ctx: ImgCtx, i: nat, a: nat, b: nat, unique: Guid)
    requires ctx.align > 0
    ensures EditSchem(s, ctx, Add(Number(i + 1), Number(a), Number(b), unique))
            == if i < |s.table| && !IsUsed(s.kind, s.table[i]) && s.first <= a <= b <= s.last && Clear(s, i, a, b)
               then s.(table := s.table[i := Added(s.kind, a, b, unique)]) else s
  {
    PartPromptIff(s, false, i);
    if i < |s.table| {
      StretchIff(s, ctx, i, a, b);
    }
  }

  /** A partition is moved exactly if it is used and the new stretch is in range and clear of the others. */
  lemma ResizeIff(s: Schem, ctx: ImgCtx, i: nat, a: nat, b: nat)
    requires ctx.align > 0
    ensures EditSchem(s, ctx, Resize(Number(i + 1), Number(a), Number(b)))
            == if i < |s.table| && IsUsed(s.kind, s.table[i]) && s.first <= a <= b <= s.last && Clear(s, i, a, b)
               then s.(table := s.table[i := s.table[i].(startLba := a, endLba := b)]) else s
  {
    PartPromptIff(s, true, i);
    if i < |s.table| {
      StretchIff(s, ctx, i, a, b);
    }
  }

  /** Deleting what was added leaves the slot empty and the rest as it was. */
  lemma DeleteUndoesAdd(s: Schem, ctx: ImgCtx, i: nat, a: nat, b: nat, unique: Guid)
    requires ctx.align > 0 && i < |s.table| && !IsUsed(s.kind, s.table[i])
    requires s.first <= a <= b <= s.last && Clear(s, i, a, b)
    ensures var t := EditSchem(s, ctx, Add(Number(i + 1), Number(a), Number(b), unique));
            && t.table[i] == Added(s.kind, a, b, unique) && IsUsed(t.kind, t.table[i]) && t != s
            && EditSchem(t, ctx, Delete(Number(i + 1))) == s.(table := s.table[i := NoPart()])
  {
    AddIff(s, ctx, i, a, b, unique);
    NewIsUsed(s.kind, unique);
    var t := EditSchem(s, ctx, Add(Number(i + 1), Number(a), Number(b), unique));
    PartPromptIff(t, true, i);
    assert t.table[i := NoPart()] == s.table[i := NoPart()];
  }

  /** Deleting zeroes the slot; a GPT has no active bit to toggle. */
  lemma DeleteClears(s: Schem, ctx: ImgCtx, i: nat)
    requires ctx.align > 0 && i < |s.table| && IsUsed(s.kind, s.table[i])
    ensures EditSchem(s, ctx, Delete(Number(i + 1))) == s.(table := s.table[i := NoPart()])
    ensures s.kind.Gpt? ==> EditSchem(s, ctx, ToggleBoot(Number(i + 1))) == s
  {
    PartPromptIff(s, true, i);
  }

  /**
    A GUID becomes the type of a GPT partition, a number of one byte that of an
    MBR partition; any other input leaves the scheme as it was.
   */
  lemma RetypeIff(s: Schem, ctx: ImgCtx, i: nat, typ: Input, guid: Option<Guid>)
    requires ctx.align > 0 && i < |s.table| && IsUsed(s.kind, s.table[i])
    ensures var t, p := EditSchem(s, ctx, Retype(Number(i + 1), typ, guid)), s.table[i];
            && t == s.(table := s.table[i := t.table[i]])
            && (s.kind.Gpt? && guid.Some? ==> t.table[i] == p.(typeGuid := guid.value))
            && (s.kind.Mbr? && typ.Number? && typ.n <= 0xFF ==> t.table[i] == p.(typeI := typ.n))
            && (s.kind.Gpt? && guid.None? ==> t == s)
            && (s.kind.Mbr? && !(typ.Number? && typ.n <= 0xFF) ==> t == s)
  {
    PartPromptIff(s, true, i);
  }

  /** Moving a partition and moving it back changes nothing. */
  lemma ResizeBack(s: Schem, ctx: ImgCtx, i: nat, a: nat, b: nat)
    requires Safe(s) && ctx.align > 0 && i < |s.table| && IsUsed(s.kind, s.table[i])
    requires s.first <= a <= b <= s.last && Clear(s, i, a, b)
    ensures var t := EditSchem(s, ctx, Resize(Number(i + 1), Number(a), Number(b)));
            && t.table[i] == s.table[i].(startLba := a, endLba := b)
            && EditSchem(t, ctx, Resize(Number(i + 1), Number(s.table[i].startLba), Number(s.table[i].endLba))) == s
  {
    var p := s.table[i];
    var e := Resize(Number(i + 1), Number(a), Number(b));
    var t := EditSchem(s, ctx, e);
    PartPromptIff(s, true, i);
    StretchIff(s, ctx, i, a, b);
    EditSafe(s, ctx, e);
    PartPromptIff(t, true, i);
    OwnStretchClear(s, t, i);
    StretchIff(t, ctx, i, p.startLba, p.endLba);
    assert t.table[i := p] == s.table;
  }

  /** The other partitions stay clear of where a partition was. */
  lemma OwnStretchClear(s: Schem, t: Schem, i: nat)
    requires Safe(s) && OneSlot(s, t, i) && IsUsed(s.kind, s.table[i])
    ensures InRange(s, s.table[i]) && Clear(t, i, s.table[i].startLba, s.table[i].endLba)
  {
    var p := s.table[i];
    assert InRange(s, p);
    forall j: nat | Other(t, i, j)
      ensures !Touches(t.table[j], p.startLba, p.endLba)
    {
      assert t.table[j] == s.table[j] && InRange(s, s.table[j]);
      if i < j {
        assert Apart(s.table[i], s.table[j]);
      } else {
        assert Apart(s.table[j], s.table[i]);
      }
    }
  }

  /** Toggling twice restores the active bit; the other bits of the indicator are lost. */
  lemma ToggleTwice(s: Schem, ctx: ImgCtx, i: nat)
    requires ctx.align > 0 && s.kind.Mbr? && i < |s.table| && IsUsed(s.kind, s.table[i])
    ensures var e := ToggleBoot(Number(i + 1));
            var t := EditSchem(s, ctx, e);
            && (t.table[i].bootInd >= 0x80 <==> s.table[i].bootInd < 0x80)
            && (EditSchem(t, ctx, e) == s <==> s.table[i].bootInd in {0, 0x80})
  {
    var t := EditSchem(s, ctx, ToggleBoot(Number(i + 1)));
    PartPromptIff(s, true, i);
    PartPromptIff(t, true, i);
    var p := s.table[i];
    var u := EditSchem(t, ctx, ToggleBoot(Number(i + 1)));
    assert u.table[i] == p.(bootInd := if p.bootInd >= 0x80 then 0x80 else 0);
    if p.bootInd in {0, 0x80} {
      assert u.table == s.table;
    }
  }
}
