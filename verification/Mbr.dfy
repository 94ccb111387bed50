/**
  The master boot record, plain and protective (libs/libpartman/src/mbr.c;
  sections 5.2.1 and 5.2.3 of the UEFI Specification).
 */
module MbrScheme {
  import opened Words
  import opened Memutils
  import opened Guids
  import opened ImgCtxs
  import opened Schemes

  const MBR_SZ := 512
  const BOOT_SIG: u16 := 0xAA55
  const TYPE_PROT: byte := 0xEE
  const TYPE_DEFAULT: byte := 0x83
  const MBR_PARTS := 4
  const PARTS_AT := 446
  const SIG_AT := 440
  const MAX_LBA := 0xFFFF_FFFF

  datatype MbrPart = MbrPart(bootInd: byte, startChs: u32, typ: byte, endChs: u32, startLba: u64, szLba: u64)

  datatype MbrFields = MbrFields(diskSig: u32, parts: seq<MbrPart>)

  type Mbr = m: MbrFields | |m.parts| == MBR_PARTS
    witness MbrFields(0, [MbrPart(0, 0, 0, 0, 0, 0), MbrPart(0, 0, 0, 0, 0, 0),
                          MbrPart(0, 0, 0, 0, 0, 0), MbrPart(0, 0, 0, 0, 0, 0)])

  function NoMbrPart(): MbrPart {
    MbrPart(0, 0, 0, 0, 0, 0)
  }

  function ZeroMbr(): Mbr {
    MbrFields(0, [NoMbrPart(), NoMbrPart(), NoMbrPart(), NoMbrPart()])
  }

  //////////////////////////////////////////////////////////////////////////////
  // On disk
  //////////////////////////////////////////////////////////////////////////////

  /** The 16 bytes of an entry; LBA and size keep their low 32 bits. */
  function PartBytes(p: MbrPart): (s: seq<byte>)
    ensures |s| == 16
  {
    [p.bootInd] + (Le(p.startChs, 3) + ([p.typ] + (Le(p.endChs, 3) + (Le(p.startLba, 4) + Le(p.szLba, 4)))))
  }

  /** Bytes 446..511: the table and the boot signature. */
  function TableBytes(m: Mbr): (s: seq<byte>)
    ensures |s| == 66
  {
    PartBytes(m.parts[0])
    + (PartBytes(m.parts[1]) + (PartBytes(m.parts[2]) + (PartBytes(m.parts[3]) + Le(BOOT_SIG, 2))))
  }

  function Written(img: seq<byte>, m: Mbr): (t: seq<byte>)
    requires |img| >= MBR_SZ
    ensures |t| == |img|
  {
    Splice(Splice(img, SIG_AT, Le(m.diskSig, 4)), PARTS_AT, TableBytes(m))
  }

  predicate Present(img: seq<byte>)
    requires |img| >= MBR_SZ
  {
    FromLe(img[510..512]) == BOOT_SIG
  }

  function Num32(s: seq<byte>): u32
    requires |s| <= 4
  {
    FromLeBound(s);
    SpanValues();
    SpanMono(|s|, 4);
    FromLe(s)
  }

  lemma {:induction false} SpanMono(m: nat, n: nat)
    requires m <= n
    ensures Span(m) <= Span(n)
  {
    if m < n {
      SpanMono(m, n - 1);
    }
  }

  function PartFromBytes(s: seq<byte>): MbrPart
    requires |s| == 16
  {
    MbrPart(s[0], Num32(s[1..4]), s[4], Num32(s[5..8]), Num32(s[8..12]), Num32(s[12..16]))
  }

  function PartSlice(img: seq<byte>, i: nat): (s: seq<byte>)
    requires |img| >= MBR_SZ && i < MBR_PARTS
    ensures |s| == 16
  {
    img[PARTS_AT + 16 * i..PARTS_AT + 16 * i + 16]
  }

  function Read(img: seq<byte>): Mbr
    requires |img| >= MBR_SZ
  {
    MbrFields(Num32(img[SIG_AT..SIG_AT + 4]),
              seq(MBR_PARTS, i requires 0 <= i < MBR_PARTS => PartFromBytes(PartSlice(img, i))))
  }

  /** An entry whose fields fit their widths. */
  predicate Narrow(p: MbrPart) {
    p.startChs < 0x100_0000 && p.endChs < 0x100_0000 && p.startLba <= MAX_LBA && p.szLba <= MAX_LBA
  }

  lemma PartReadWrite(p: MbrPart)
    requires Narrow(p)
    ensures PartFromBytes(PartBytes(p)) == p
  {
    var s := PartBytes(p);
    assert s[1..4] == Le(p.startChs, 3);
    assert s[5..8] == Le(p.endChs, 3);
    assert s[8..12] == Le(p.startLba, 4);
    assert s[12..16] == Le(p.szLba, 4);
    SpanValues();
    assert Span(3) == 0x100_0000;
    ReadWrite(p.startChs, 3);
    ReadWrite(p.endChs, 3);
    ReadWrite(p.startLba, 4);
    ReadWrite(p.szLba, 4);
  }

  /** Nothing but the disk signature, the table and the boot signature is written. */
  lemma WrittenFrame(img: seq<byte>, m: Mbr, x: nat)
    requires MBR_SZ <= |img| && x < |img| && !(440 <= x < 444) && !(446 <= x < 512)
    ensures Written(img, m)[x] == img[x]
  {
    SpliceAt(img, SIG_AT, Le(m.diskSig, 4), x);
    SpliceAt(Splice(img, SIG_AT, Le(m.diskSig, 4)), PARTS_AT, TableBytes(m), x);
  }

  lemma TableSlices(m: Mbr, i: nat)
    requires i < MBR_PARTS
    ensures TableBytes(m)[16 * i..16 * i + 16] == PartBytes(m.parts[i])
    ensures TableBytes(m)[64..66] == Le(BOOT_SIG, 2)
  {
    var a, b, c, d := PartBytes(m.parts[0]), PartBytes(m.parts[1]), PartBytes(m.parts[2]), PartBytes(m.parts[3]);
    FiveSlices(a, b, c, d, Le(BOOT_SIG, 2));
  }

  lemma FiveSlices(a: seq<byte>, b: seq<byte>, c: seq<byte>, d: seq<byte>, e: seq<byte>)
    requires |a| == |b| == |c| == |d| == 16 && |e| == 2
    ensures var s := a + (b + (c + (d + e)));
            s[0..16] == a && s[16..32] == b && s[32..48] == c && s[48..64] == d && s[64..66] == e
  {
  }

  /** What was written is read: the disk signature, every entry, and the boot signature. */
  lemma ReadWritten(img: seq<byte>, m: Mbr)
    requires MBR_SZ <= |img| && forall i :: 0 <= i < MBR_PARTS ==> Narrow(m.parts[i])
    ensures Present(Written(img, m)) && Read(Written(img, m)) == m
  {
    var t := Written(img, m);
    WrittenSlices(img, m);
    SpanValues();
    ReadWrite(m.diskSig, 4);
    ReadWrite(BOOT_SIG, 2);
    forall i | 0 <= i < MBR_PARTS
      ensures PartFromBytes(PartSlice(t, i)) == m.parts[i]
    {
      PartReadWrite(m.parts[i]);
    }
  }

  lemma WrittenSlices(img: seq<byte>, m: Mbr)
    requires MBR_SZ <= |img|
    ensures var t := Written(img, m);
            && t[SIG_AT..SIG_AT + 4] == Le(m.diskSig, 4) && t[510..512] == Le(BOOT_SIG, 2)
            && forall i :: 0 <= i < MBR_PARTS ==> PartSlice(t, i) == PartBytes(m.parts[i])
  {
    var s := Splice(img, SIG_AT, Le(m.diskSig, 4));
    var u := TableBytes(m);
    var t := Splice(s, PARTS_AT, u);
    SpliceSlice(img, SIG_AT, Le(m.diskSig, 4));
    SpliceAbove(s, PARTS_AT, u, SIG_AT, SIG_AT + 4);
    SpliceSlice(s, PARTS_AT, u);
    SliceSlice(t, PARTS_AT, 66, 64, 66);
    TableSlices(m, 0);
    forall i | 0 <= i < MBR_PARTS
      ensures PartSlice(t, i) == PartBytes(m.parts[i])
    {
      TableSlices(m, i);
      SliceSlice(t, PARTS_AT, 66, 16 * i, 16 * i + 16);
    }
  }

  //////////////////////////////////////////////////////////////////////////////
  // Schemes
  //////////////////////////////////////////////////////////////////////////////

  function FirstUsable(ctx: ImgCtx): u64
    requires Validates(ctx)
  {
    ByteToLbaUp(ctx, MBR_SZ);
    ByteToLba(ctx, MBR_SZ, true)
  }

  function LastUsable(ctx: ImgCtx): u64
    requires Validates(ctx)
  {
    ByteToLbaDown(ctx, ctx.imgSz);
    var l := ByteToLba(ctx, ctx.imgSz, false) - 1;
    if l > MAX_LBA then MAX_LBA else l
  }

  function NewMbr(ctx: ImgCtx, id: u32): Schem
    requires Validates(ctx)
  {
    Schem(Kind.Mbr, id, ZERO_GUID, FirstUsable(ctx), LastUsable(ctx), NoParts(MBR_PARTS))
  }

  /** The usable range is everything behind the MBR that lies in the image and below 2^32. */
  lemma NewMbrUsable(ctx: ImgCtx, id: u32)
    requires Validates(ctx)
    ensures var s := NewMbr(ctx, id);
            && 1 == s.first <= s.last <= MAX_LBA && MBR_SZ <= LbaToByte(ctx, s.first)
            && LbaToByte(ctx, s.last) + ctx.secSz <= ctx.imgSz && Safe(s)
            && (s.last == 0xFFFF_FFFF || LbaToByte(ctx, s.last + 2) > ctx.imgSz)
            && s.idI == id && |s.table| == 4 && NoneUsed(s)
  {
    var s := NewMbr(ctx, id);
    ByteToLbaDown(ctx, ctx.imgSz);
    var l := ByteToLba(ctx, ctx.imgSz, false) - 1;
    assert (l + 1) * ctx.secSz == l * ctx.secSz + ctx.secSz;
    assert (l + 2) * ctx.secSz == l * ctx.secSz + 2 * ctx.secSz;
    MulMono(ctx.secSz, s.last, l);
    assert ByteToLba(ctx, MBR_SZ, true) == 1;
    forall i | 0 <= i < |s.table|
      ensures !IsUsed(s.kind, s.table[i])
    {
    }
  }

  function NewMbrPart(): Part {
    NoPart().(typeI := TYPE_DEFAULT)
  }

  predicate PartIsProt(p: Part) {
    p.typeI == TYPE_PROT
  }

  /** The scheme with one protective partition over the whole usable range. */
  function Protective(s: Schem): Schem
    requires |s.table| > 0
  {
    s.(table := NoParts(|s.table|)[0 := NoPart().(typeI := TYPE_PROT, startLba := s.first, endLba := s.last)])
  }

  lemma ProtectiveSafe(s: Schem)
    requires s.kind == Kind.Mbr && |s.table| > 0 && s.first <= s.last
    ensures var t := Protective(s);
            && Safe(t) && PartIsProt(t.table[0]) && t == s.(table := t.table) && |t.table| == |s.table|
            && t.table[0].typeI == 0xEE && t.table[0].startLba == s.first && t.table[0].endLba == s.last
            && t.table[0].bootInd == 0 && forall i :: 0 < i < |t.table| ==> t.table[i] == NoPart()
  {
    var t := Protective(s);
    forall i | 0 < i < |t.table|
      ensures !IsUsed(t.kind, t.table[i])
    {
    }
  }

  /** The size field is a 64-bit difference of the bounds, plus one. */
  function SizeOf(p: Part): u64 {
    (p.endLba - p.startLba + 1) % 0x1_0000_0000_0000_0000
  }

  function EndOf(p: MbrPart): u64 {
    (p.startLba + p.szLba - 1) % 0x1_0000_0000_0000_0000
  }

  function MbrPartOf(p: Part, ctx: ImgCtx): MbrPart
    requires Validates(ctx)
  {
    if p.typeI == 0 then NoMbrPart()
    else MbrPart(p.bootInd, LbaToChs(ctx, p.startLba, PartIsProt(p)), p.typeI,
                 LbaToChs(ctx, p.endLba, PartIsProt(p)), p.startLba, SizeOf(p))
  }

  function MbrOf(s: Schem, ctx: ImgCtx): Mbr
    requires Validates(ctx) && |s.table| == MBR_PARTS
  {
    MbrFields(s.idI, seq(MBR_PARTS, i requires 0 <= i < MBR_PARTS => MbrPartOf(s.table[i], ctx)))
  }

  function PartOfMbr(p: MbrPart): Part {
    if p.typ == 0 then NoPart()
    else NoPart().(typeI := p.typ, startLba := p.startLba, endLba := EndOf(p), bootInd := p.bootInd)
  }

  function SchemOfMbr(m: Mbr, ctx: ImgCtx): Schem
    requires Validates(ctx)
  {
    NewMbr(ctx, m.diskSig).(table := seq(MBR_PARTS, i requires 0 <= i < MBR_PARTS => PartOfMbr(m.parts[i])))
  }

  function SaveImg(ctx: ImgCtx, img: seq<byte>, s: Schem): (t: seq<byte>)
    requires Validates(ctx) && |s.table| == MBR_PARTS && |img| >= MBR_SZ
    ensures |t| == |img|
  {
    Written(img, MbrOf(s, ctx))
  }

  /** A partition inside the range that 32-bit fields can hold. */
  predicate Holdable(p: Part) {
    1 <= p.startLba <= p.endLba <= MAX_LBA
  }

  predicate Fits(s: Schem)
    requires |s.table| == MBR_PARTS
  {
    forall i :: 0 <= i < MBR_PARTS && IsUsed(s.kind, s.table[i]) ==> Holdable(s.table[i])
  }

  /** Used slots of an MBR scheme use only the fields that an MBR has. */
  predicate MbrShaped(s: Schem, ctx: ImgCtx)
    requires Validates(ctx)
  {
    && s.kind == Kind.Mbr && s.idGuid == ZERO_GUID && |s.table| == MBR_PARTS
    && s.first == FirstUsable(ctx) && s.last == LastUsable(ctx)
    && forall i :: 0 <= i < MBR_PARTS && IsUsed(s.kind, s.table[i]) ==> MbrOnly(s.table[i])
  }

  predicate MbrOnly(p: Part) {
    p == NoPart().(typeI := p.typeI, startLba := p.startLba, endLba := p.endLba, bootInd := p.bootInd)
  }

  function CleanedMbr(s: Schem): Schem
    requires |s.table| == MBR_PARTS
  {
    s.(table := seq(MBR_PARTS, i requires 0 <= i < MBR_PARTS =>
         if IsUsed(s.kind, s.table[i]) then s.table[i] else NoPart()))
  }

  lemma ChsNarrow(ctx: ImgCtx, lba: nat, prot: bool)
    requires Validates(ctx)
    ensures LbaToChs(ctx, lba, prot) < 0x100_0000
  {
  }

  lemma BoundsSurvive(a: nat, b: nat)
    requires 1 <= a <= b <= MAX_LBA
    ensures var sz := (b - a + 1) % 0x1_0000_0000_0000_0000;
            sz <= MAX_LBA && (a + sz - 1) % 0x1_0000_0000_0000_0000 == b
  {
  }

  lemma PartSurvives(p: Part, ctx: ImgCtx)
    requires Validates(ctx) && (p.typeI != 0 ==> Holdable(p))
    ensures Narrow(MbrPartOf(p, ctx))
    ensures p.typeI != 0 && MbrOnly(p) ==> PartOfMbr(MbrPartOf(p, ctx)) == p
  {
    if p.typeI != 0 {
      ChsNarrow(ctx, p.startLba, PartIsProt(p));
      ChsNarrow(ctx, p.endLba, PartIsProt(p));
      BoundsSurvive(p.startLba, p.endLba);
      PartSurvivesAs(p, MbrPartOf(p, ctx));
    }
  }

  lemma PartSurvivesAs(p: Part, m: MbrPart)
    requires p.typeI != 0 && m.typ == p.typeI && m.bootInd == p.bootInd
    requires m.startLba == p.startLba && EndOf(m) == p.endLba
    ensures MbrOnly(p) ==> PartOfMbr(m) == p
  {
  }

  /**
    The round trip: partitions inside the range of the MBR, the disk identifier
    and the usable range come back; so does a used slot's boot indicator.
   */
  lemma MbrRoundTrip(ctx: ImgCtx, img: seq<byte>, s: Schem)
    requires Validates(ctx) && MbrShaped(s, ctx) && MBR_SZ <= |img|
    requires Fits(s)
    ensures var t := SaveImg(ctx, img, s);
            Present(t) && SchemOfMbr(Read(t), ctx) == CleanedMbr(s)
  {
    forall i | 0 <= i < MBR_PARTS
      ensures Narrow(MbrPartOf(s.table[i], ctx))
      ensures PartOfMbr(MbrPartOf(s.table[i], ctx)) == CleanedMbr(s).table[i]
    {
      PartSurvives(s.table[i], ctx);
    }
    ReadWritten(img, MbrOf(s, ctx));
  }

  /** A safe scheme is in that range. */
  lemma SafeIsHoldable(ctx: ImgCtx, s: Schem)
    requires Validates(ctx) && MbrShaped(s, ctx) && Safe(s)
    ensures Fits(s)
  {
    NewMbrUsable(ctx, s.idI);
    forall i | 0 <= i < MBR_PARTS && IsUsed(s.kind, s.table[i])
      ensures Holdable(s.table[i])
    {
      assert InRange(s, s.table[i]);
    }
  }

  /** The tuple that is stored for a sector: the one that denotes it, or the last one if none does. */
  predicate Addresses(ctx: ImgCtx, chs: u32, lba: nat, prot: bool)
    requires Validates(ctx)
  {
    var t := ChsOnDisk(chs);
    if lba < 1024 * (ctx.hpc * ctx.spt)
    then t.c <= 1023 && t.h < ctx.hpc && 1 <= t.s <= ctx.spt && ChsLba(ctx, t) == lba
    else t == if prot then Chs(1023, 255, 63) else Chs(1023, ctx.hpc - 1, ctx.spt)
  }

  /** What a saved MBR holds of a used partition: each bound with its own CHS address, the size, type and indicator. */
  lemma ChsStored(ctx: ImgCtx, img: seq<byte>, s: Schem, i: nat)
    requires Validates(ctx) && MbrShaped(s, ctx) && MBR_SZ <= |img| && i < MBR_PARTS
    requires Fits(s) && IsUsed(s.kind, s.table[i])
    ensures var p, q := Read(SaveImg(ctx, img, s)).parts[i], s.table[i];
            && Addresses(ctx, p.startChs, q.startLba, q.typeI == 0xEE)
            && Addresses(ctx, p.endChs, q.endLba, q.typeI == 0xEE)
            && p.startLba == q.startLba && p.szLba == q.endLba - q.startLba + 1
            && p.typ == q.typeI && p.bootInd == q.bootInd
  {
    SavedPart(ctx, img, s, i);
    ChsOfPart(ctx, s.table[i], MbrPartOf(s.table[i], ctx));
    FieldsOfPart(ctx, s.table[i], MbrPartOf(s.table[i], ctx));
  }

  lemma SavedPart(ctx: ImgCtx, img: seq<byte>, s: Schem, i: nat)
    requires Validates(ctx) && s.kind == Kind.Mbr && |s.table| == MBR_PARTS && MBR_SZ <= |img| && i < MBR_PARTS
    requires Fits(s)
    ensures Read(SaveImg(ctx, img, s)).parts[i] == MbrPartOf(s.table[i], ctx)
  {
    forall k | 0 <= k < MBR_PARTS
      ensures Narrow(MbrPartOf(s.table[k], ctx))
    {
      PartSurvives(s.table[k], ctx);
    }
    ReadWritten(img, MbrOf(s, ctx));
  }

  lemma ChsOfPart(ctx: ImgCtx, p: Part, m: MbrPart)
    requires Validates(ctx) && p.typeI != 0 && m == MbrPartOf(p, ctx)
    ensures Addresses(ctx, m.startChs, p.startLba, PartIsProt(p))
    ensures Addresses(ctx, m.endChs, p.endLba, PartIsProt(p))
  {
    ChsOfLba(ctx, p.startLba, PartIsProt(p), m.startChs);
    ChsOfLba(ctx, p.endLba, PartIsProt(p), m.endChs);
  }

  lemma FieldsOfPart(ctx: ImgCtx, p: Part, m: MbrPart)
    requires Validates(ctx) && p.typeI != 0 && p.startLba <= p.endLba <= MAX_LBA && m == MbrPartOf(p, ctx)
    ensures m.startLba == p.startLba && m.szLba == p.endLba - p.startLba + 1
    ensures m.typ == p.typeI && m.bootInd == p.bootInd
  {
  }

  lemma ChsOfLba(ctx: ImgCtx, lba: nat, prot: bool, chs: u32)
    requires Validates(ctx) && chs == LbaToChs(ctx, lba, prot)
    ensures Addresses(ctx, chs, lba, prot)
  {
    if lba < 1024 * (ctx.hpc * ctx.spt) {
      ChsExact(ctx, lba, prot);
    } else {
      ChsSaturates(ctx, lba, prot);
    }
  }

  function ChsLba(ctx: ImgCtx, t: Chs): int {
    (t.c * ctx.hpc + t.h) * ctx.spt + (t.s - 1)
  }

  /** "Removing" an MBR writes an empty one, boot signature included: it is still found. */
  lemma RemoveLeavesMbr(img: seq<byte>)
    requires MBR_SZ <= |img|
    ensures Present(Written(img, ZeroMbr()))
  {
    ReadWritten(img, ZeroMbr());
  }

  //////////////////////////////////////////////////////////////////////////////
  // The program
  //////////////////////////////////////////////////////////////////////////////

  lemma RecordOfPart(s: seq<byte>, p: nat, m: MbrPart) returns (r: Record)
    requires p + 16 <= |s|
    ensures Upto(s, r, 0, p) && r.parts == [Le(m.bootInd, 1), Le(m.startChs, 3), Le(m.typ, 1), Le(m.endChs, 3),
                                            Le(m.startLba, 4), Le(m.szLba, 4)]
    ensures r.stages[6] == Splice(s, p, PartBytes(m))
  {
    var parts := [Le(m.bootInd, 1), Le(m.startChs, 3), Le(m.typ, 1), Le(m.endChs, 3),
                  Le(m.startLba, 4), Le(m.szLba, 4)];
    LeOfByte(m.bootInd);
    LeOfByte(m.typ);
    ConcatSix(parts);
    r := RecordStages(s, p, parts);
  }

  lemma ConcatSix(parts: seq<seq<byte>>)
    requires |parts| == 6
    ensures Concat(parts) == parts[0] + (parts[1] + (parts[2] + (parts[3] + (parts[4] + parts[5]))))
  {
    var a, b := parts[..3], parts[3..];
    assert parts == a + b;
    ConcatSum(a, b);
    ConcatThree(a);
    ConcatThree(b);
  }

  lemma ConcatThree(parts: seq<seq<byte>>)
    requires |parts| == 3
    ensures Concat(parts) == parts[0] + (parts[1] + parts[2])
  {
    assert parts[1..][1..] == [parts[2]] && Concat([parts[2]]) == parts[2] by {
      ConcatPush([], parts[2]);
      assert [] + [parts[2]] == [parts[2]];
    }
    assert Concat(parts[1..]) == parts[1] + Concat(parts[1..][1..]);
  }

  method PartWrite(buf: array<byte>, p: nat, m: MbrPart)
    requires p + 16 <= buf.Length
    modifies buf
    ensures buf[..] == Splice(old(buf[..]), p, PartBytes(m))
  {
    ghost var r := RecordOfPart(buf[..], p, m);
    PutPu8(buf, p, m.bootInd, r, 0);
    PutPu24(buf, p + 1, m.startChs, r, 1);
    PutPu8(buf, p + 4, m.typ, r, 2);
    PutPu24(buf, p + 5, m.endChs, r, 3);
    PutPu32(buf, p + 8, m.startLba, r, 4);
    PutPu32(buf, p + 12, m.szLba, r, 5);
  }

  /** Five adjacent writes are one. */
  lemma SpliceFive(s: seq<byte>, m: Mbr)
    requires |s| >= MBR_SZ
    ensures Splice(Splice(Splice(Splice(Splice(s, 446, PartBytes(m.parts[0])), 462, PartBytes(m.parts[1])),
                                 478, PartBytes(m.parts[2])), 494, PartBytes(m.parts[3])), 510, Le(BOOT_SIG, 2))
            == Splice(s, PARTS_AT, TableBytes(m))
  {
    var a, b, c, d := PartBytes(m.parts[0]), PartBytes(m.parts[1]), PartBytes(m.parts[2]), PartBytes(m.parts[3]);
    var e := Le(BOOT_SIG, 2);
    SpliceAppend(s, 446, a, b);
    SpliceAppend(s, 446, a + b, c);
    SpliceAppend(s, 446, a + b + c, d);
    SpliceAppend(s, 446, a + b + c + d, e);
    assert a + (b + (c + (d + e))) == a + b + c + d + e;
  }

  method MbrWrite(buf: array<byte>, m: Mbr)
    requires buf.Length >= MBR_SZ
    modifies buf
    ensures buf[..] == Written(old(buf[..]), m)
  {
    WritePu32(buf, 440, m.diskSig);
    SpliceFive(buf[..], m);
    PartWrite(buf, 446, m.parts[0]);
    PartWrite(buf, 462, m.parts[1]);
    PartWrite(buf, 478, m.parts[2]);
    PartWrite(buf, 494, m.parts[3]);
    WritePu16(buf, 510, BOOT_SIG);
  }

  method PartRead(buf: array<byte>, p: nat) returns (m: MbrPart)
    requires p + 16 <= buf.Length
    ensures m == PartFromBytes(buf[p..p + 16])
  {
    ghost var s := buf[p..p + 16];
    SliceSlice(buf[..], p, 16, 1, 4);
    SliceSlice(buf[..], p, 16, 5, 8);
    SliceSlice(buf[..], p, 16, 8, 12);
    SliceSlice(buf[..], p, 16, 12, 16);
    assert s == buf[..][p..p + 16];
    assert s[1..4] == buf[p + 1..p + 4] && s[5..8] == buf[p + 5..p + 8];
    assert s[8..12] == buf[p + 8..p + 12] && s[12..16] == buf[p + 12..p + 16];
    var a, b, c, d := ReadPu24(buf, p + 1), ReadPu24(buf, p + 5), ReadPu32(buf, p + 8), ReadPu32(buf, p + 12);
    assert a == Num32(s[1..4]) && b == Num32(s[5..8]) && c == Num32(s[8..12]) && d == Num32(s[12..16]);
    m := MbrPart(buf[p], a, buf[p + 4], b, c, d);
  }

  method MbrRead(buf: array<byte>) returns (m: Mbr)
    requires buf.Length >= MBR_SZ
    ensures m == Read(buf[..])
  {
    ghost var s := buf[..];
    var sig := ReadPu32(buf, 440);
    assert s[440..444] == buf[440..444] && sig == Num32(s[440..444]);
    var p0 := PartRead(buf, 446);
    var p1 := PartRead(buf, 462);
    var p2 := PartRead(buf, 478);
    var p3 := PartRead(buf, 494);
    assert buf[446..462] == PartSlice(s, 0) && buf[462..478] == PartSlice(s, 1);
    assert buf[478..494] == PartSlice(s, 2) && buf[494..510] == PartSlice(s, 3);
    m := MbrFields(sig, [p0, p1, p2, p3]);
    assert m.parts == Read(s).parts;
  }

  method FromSchem(ctx: ImgCtx, s: Scheme) returns (m: Mbr)
    requires Validates(ctx) && |s.table| == MBR_PARTS
    ensures m == MbrOf(s.Value(), ctx)
  {
    var parts := [NoMbrPart(), NoMbrPart(), NoMbrPart(), NoMbrPart()];
    for i := 0 to MBR_PARTS
      invariant |parts| == MBR_PARTS
      invariant forall j :: 0 <= j < i ==> parts[j] == MbrPartOf(s.table[j], ctx)
      invariant forall j :: i <= j < MBR_PARTS ==> parts[j] == NoMbrPart()
    {
      var p := s.table[i];
      if p.typeI == 0 {
        continue;
      }
      var prot := PartIsProt(p);
      parts := parts[i := MbrPart(p.bootInd, LbaToChs(ctx, p.startLba, prot), p.typeI,
                                  LbaToChs(ctx, p.endLba, prot), p.startLba, SizeOf(p))];
    }
    m := MbrFields(s.idI, parts);
    assert m.parts == MbrOf(s.Value(), ctx).parts;
  }

  method InitMbr(s: Scheme, ctx: ImgCtx, id: u32)
    requires Validates(ctx) && s.idGuid == ZERO_GUID
    modifies s
    ensures s.Value() == NewMbr(ctx, id)
  {
    s.kind := Kind.Mbr;
    s.first := FirstUsable(ctx);
    s.last := LastUsable(ctx);
    s.table := NoParts(MBR_PARTS);
    s.idI := id;
  }

  method ToSchem(s: Scheme, m: Mbr, ctx: ImgCtx)
    requires Validates(ctx) && s.idGuid == ZERO_GUID
    modifies s
    ensures s.Value() == SchemOfMbr(m, ctx)
  {
    InitMbr(s, ctx, m.diskSig);
    ghost var v := s.Value();
    for i := 0 to MBR_PARTS
      invariant |s.table| == MBR_PARTS && s.Value() == v.(table := s.table)
      invariant forall j :: 0 <= j < i ==> s.table[j] == PartOfMbr(m.parts[j])
      invariant forall j :: i <= j < MBR_PARTS ==> s.table[j] == NoPart()
    {
      var p := m.parts[i];
      if p.typ != 0 {
        s.table := s.table[i := s.table[i].(typeI := p.typ, startLba := p.startLba, endLba := EndOf(p),
                                            bootInd := p.bootInd)];
      }
    }
    assert s.table == SchemOfMbr(m, ctx).table;
  }

  method SaveMbr(ctx: ImgCtx, img: array<byte>, s: Scheme)
    requires Validates(ctx) && |s.table| == MBR_PARTS && img.Length >= MBR_SZ
    modifies img
    ensures img[..] == SaveImg(ctx, old(img[..]), s.Value())
  {
    var m := FromSchem(ctx, s);
    MbrWrite(img, m);
  }

  method LoadMbr(ctx: ImgCtx, img: array<byte>, s: Scheme) returns (found: bool)
    requires Validates(ctx) && img.Length >= MBR_SZ && s.idGuid == ZERO_GUID
    modifies s
    ensures found == Present(img[..])
    ensures found ==> s.Value() == SchemOfMbr(Read(img[..]), ctx)
    ensures !found ==> s.Value() == old(s.Value())
  {
    assert img[..][510..512] == img[510..512];
    found := ReadPu16(img, 510) == BOOT_SIG;
    if found {
      var m := MbrRead(img);
      ToSchem(s, m, ctx);
    }
  }

  method RemoveMbr(img: array<byte>)
    requires img.Length >= MBR_SZ
    modifies img
    ensures img[..] == Written(old(img[..]), ZeroMbr())
  {
    MbrWrite(img, ZeroMbr());
  }

  method SetProt(s: Scheme)
    requires |s.table| > 0
    modifies s
    ensures s.Value() == Protective(old(s.Value()))
  {
    s.table := NoParts(|s.table|);
    s.table := s.table[0 := s.table[0].(typeI := TYPE_PROT, startLba := s.first, endLba := s.last, bootInd := 0)];
  }
}
