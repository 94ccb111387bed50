/**
  Any number of saves, each cut short anywhere (libs/libpartman/src/schem.c:218-268,
  libs/libpartman/src/gpt.c:441-511, 609-626).  The four regions of the GPT behave
  like four registers: at every moment each of them holds its part of some scheme
  that was being saved.
 */
module CutRuns {
  import opened Words
  import opened ImgCtxs
  import opened Schemes
  import opened GptFormat
  import opened GptTable
  import opened GptStore
  import opened GptRecovery
  import opened GptTheorems
  import opened GptCrashes
  import opened CtxModel
  import opened CtxCrash
  import M = MbrScheme

  //////////////////////////////////////////////////////////////////////////////
  // Regions in place
  //////////////////////////////////////////////////////////////////////////////

  ghost predicate Laid(ctx: ImgCtx, img: seq<byte>, p: Hdr, a: seq<Ent>, q: Hdr, b: seq<Ent>)
    requires Validates(ctx)
  {
    && |img| == ctx.imgSz && p.myLba == PRIM_LBA && q.myLba == EndLba(ctx) && |a| <= MAX_PARTS && |b| <= MAX_PARTS
    && HdrAt(ctx, img, p) && EntriesAt(img, PrimTableAt(ctx), a)
    && HdrAt(ctx, img, q) && EntriesAt(img, SecTableAt(ctx), b)
  }

  lemma LaidSecHdr(ctx: ImgCtx, c: seq<byte>, d: seq<byte>, p: Hdr, a: seq<Ent>, q: Hdr, b: seq<Ent>, h: Hdr)
    requires Validates(ctx) && Laid(ctx, c, p, a, q, b) && h.myLba == EndLba(ctx)
    requires RegionFits(ctx, |c|, HdrRegion(h)) && d == WriteRegion(ctx, c, HdrRegion(h))
    ensures Laid(ctx, d, p, a, h, b)
  {
    Places(ctx);
    HdrWritten(ctx, c, h);
    HdrWriteFrame(ctx, c, h, 0, SecAt(ctx));
    HdrStays(ctx, c, d, 0, SecAt(ctx), p);
    EntriesStay(c, d, 0, SecAt(ctx), PrimTableAt(ctx), a);
    EntriesStay(c, d, 0, SecAt(ctx), SecTableAt(ctx), b);
  }

  lemma LaidSecTable(ctx: ImgCtx, c: seq<byte>, d: seq<byte>, p: Hdr, a: seq<Ent>, q: Hdr, b: seq<Ent>, t: seq<Ent>)
    requires Validates(ctx) && Laid(ctx, c, p, a, q, b) && |t| <= MAX_PARTS && SecTableLba(ctx) >= 0
    requires RegionFits(ctx, |c|, TableRegion(SecTableLba(ctx), t, GPT_ENTRY_SZ))
    requires d == WriteRegion(ctx, c, TableRegion(SecTableLba(ctx), t, GPT_ENTRY_SZ))
    ensures Laid(ctx, d, p, a, q, t)
  {
    Places(ctx);
    TableWritten(ctx, c, SecTableLba(ctx), t);
    TableWriteFrame(ctx, c, SecTableLba(ctx), t, 0, SecTableAt(ctx));
    TableWriteFrame(ctx, c, SecTableLba(ctx), t, SecAt(ctx), |c|);
    HdrStays(ctx, c, d, 0, SecTableAt(ctx), p);
    EntriesStay(c, d, 0, SecTableAt(ctx), PrimTableAt(ctx), a);
    HdrStays(ctx, c, d, SecAt(ctx), |c|, q);
  }

  lemma LaidPrimHdr(ctx: ImgCtx, c: seq<byte>, d: seq<byte>, p: Hdr, a: seq<Ent>, q: Hdr, b: seq<Ent>, h: Hdr)
    requires Validates(ctx) && Laid(ctx, c, p, a, q, b) && h.myLba == PRIM_LBA
    requires RegionFits(ctx, |c|, HdrRegion(h)) && d == WriteRegion(ctx, c, HdrRegion(h))
    ensures Laid(ctx, d, h, a, q, b)
  {
    Places(ctx);
    HdrWritten(ctx, c, h);
    HdrWriteFrame(ctx, c, h, PrimTableAt(ctx), |c|);
    EntriesStay(c, d, PrimTableAt(ctx), |c|, PrimTableAt(ctx), a);
    HdrStays(ctx, c, d, PrimTableAt(ctx), |c|, q);
    EntriesStay(c, d, PrimTableAt(ctx), |c|, SecTableAt(ctx), b);
  }

  lemma LaidPrimTable(ctx: ImgCtx, c: seq<byte>, d: seq<byte>, p: Hdr, a: seq<Ent>, q: Hdr, b: seq<Ent>, t: seq<Ent>)
    requires Validates(ctx) && Laid(ctx, c, p, a, q, b) && |t| <= MAX_PARTS
    requires RegionFits(ctx, |c|, TableRegion(PRIM_TABLE_LBA, t, GPT_ENTRY_SZ))
    requires d == WriteRegion(ctx, c, TableRegion(PRIM_TABLE_LBA, t, GPT_ENTRY_SZ))
    ensures Laid(ctx, d, p, t, q, b)
  {
    Places(ctx);
    var end := PrimTableAt(ctx) + 128 * MAX_PARTS;
    TableWritten(ctx, c, PRIM_TABLE_LBA, t);
    TableWriteFrame(ctx, c, PRIM_TABLE_LBA, t, 0, PrimTableAt(ctx));
    TableWriteFrame(ctx, c, PRIM_TABLE_LBA, t, end, |c|);
    HdrStays(ctx, c, d, 0, PrimTableAt(ctx), p);
    HdrStays(ctx, c, d, end, |c|, q);
    EntriesStay(c, d, end, |c|, SecTableAt(ctx), b);
  }

  /** Writing the MBR leaves all four. */
  lemma LaidStays(ctx: ImgCtx, c: seq<byte>, d: seq<byte>, p: Hdr, a: seq<Ent>, q: Hdr, b: seq<Ent>)
    requires Validates(ctx) && Laid(ctx, c, p, a, q, b) && Agree(c, d, 512, |c|)
    ensures Laid(ctx, d, p, a, q, b)
  {
    Places(ctx);
    HdrStays(ctx, c, d, 512, |c|, p);
    HdrStays(ctx, c, d, 512, |c|, q);
    EntriesStay(c, d, 512, |c|, PrimTableAt(ctx), a);
    EntriesStay(c, d, 512, |c|, SecTableAt(ctx), b);
  }

  //////////////////////////////////////////////////////////////////////////////
  // Registers
  //////////////////////////////////////////////////////////////////////////////

  /** Whose header and whose table each copy holds. */
  datatype Regs = Regs(primHdr: Schem, primTable: Schem, secHdr: Schem, secTable: Schem)

  /** A scheme that can be saved, with "n" slots. */
  predicate Sized(s: Schem, n: nat) {
    Storable(s) && |s.table| == n
  }

  predicate AllSized(r: Regs, n: nat) {
    Sized(r.primHdr, n) && Sized(r.primTable, n) && Sized(r.secHdr, n) && Sized(r.secTable, n)
  }

  ghost predicate InPlace(ctx: ImgCtx, img: seq<byte>, r: Regs, n: nat)
    requires Validates(ctx)
  {
    && AllSized(r, n)
    && Laid(ctx, img, PrimHdrOf(r.primHdr, ctx), EntsOf(r.primTable.table),
            SecHdrOf(r.secHdr, ctx), EntsOf(r.secTable.table))
  }

  /** One of the four writes, in the order of the program. */
  function AssignOne(r: Regs, s: Schem, j: nat): Regs {
    if j == 0 then r.(secHdr := s) else if j == 1 then r.(secTable := s)
    else if j == 2 then r.(primHdr := s) else r.(primTable := s)
  }

  /** The first "k" of them. */
  function Assign(r: Regs, s: Schem, k: nat): Regs {
    if k == 0 then r else AssignOne(Assign(r, s, k - 1), s, k - 1)
  }

  lemma AssignIs(r: Regs, s: Schem, k: nat)
    requires k <= 4
    ensures Assign(r, s, k) == Regs(if k >= 3 then s else r.primHdr, if k >= 4 then s else r.primTable,
                                    if k >= 1 then s else r.secHdr, if k >= 2 then s else r.secTable)
  {
    if k > 0 {
      AssignIs(r, s, k - 1);
    }
  }

  /** A cut save is a prefix of four assignments. */
  lemma {:induction false} CutAssigns(ctx: ImgCtx, img: seq<byte>, r: Regs, n: nat, s: Schem, k: nat)
    requires Validates(ctx) && InPlace(ctx, img, r, n) && Sized(s, n) && k <= 4
    ensures InPlace(ctx, CutSave(ctx, img, s, k), Assign(r, s, k), n)
  {
    if k > 0 {
      var j: nat := k - 1;
      CutAssigns(ctx, img, r, n, s, j);
      AssignNext(r, s, j, k);
      NextAssigns(ctx, img, n, s, j, Assign(r, s, j), k, Assign(r, s, k));
    }
  }

  lemma AssignNext(r: Regs, s: Schem, j: nat, k: nat)
    requires k == j + 1
    ensures Assign(r, s, k) == AssignOne(Assign(r, s, j), s, j)
  {
  }

  lemma NextAssigns(ctx: ImgCtx, img: seq<byte>, n: nat, s: Schem, j: nat, r: Regs, k: nat, u: Regs)
    requires Validates(ctx) && |img| == ctx.imgSz && Sized(s, n) && k == j + 1 <= 4
    requires InPlace(ctx, CutSave(ctx, img, s, j), r, n) && u == AssignOne(r, s, j)
    ensures InPlace(ctx, CutSave(ctx, img, s, k), u, n)
  {
    CutStep(ctx, img, s, j);
    WriteAssigns(ctx, CutSave(ctx, img, s, j), CutSave(ctx, img, s, k), r, n, s, j);
  }

  lemma WriteAssigns(ctx: ImgCtx, c: seq<byte>, d: seq<byte>, r: Regs, n: nat, s: Schem, j: nat)
    requires Validates(ctx) && InPlace(ctx, c, r, n) && Sized(s, n) && j < 4
    requires var p, q, t := PrimHdrOf(s, ctx), SecHdrOf(s, ctx), EntsOf(s.table);
             var w := if j == 0 then HdrRegion(q) else if j == 1 then TableRegion(q.tableLba, t, GPT_ENTRY_SZ)
                      else if j == 2 then HdrRegion(p) else TableRegion(p.tableLba, t, GPT_ENTRY_SZ);
             RegionFits(ctx, |c|, w) && d == WriteRegion(ctx, c, w)
    ensures InPlace(ctx, d, AssignOne(r, s, j), n)
  {
    HdrsOf(s, ctx);
    var p, q := PrimHdrOf(r.primHdr, ctx), SecHdrOf(r.secHdr, ctx);
    var a, b, t := EntsOf(r.primTable.table), EntsOf(r.secTable.table), EntsOf(s.table);
    if j == 0 {
      LaidSecHdr(ctx, c, d, p, a, q, b, SecHdrOf(s, ctx));
    } else if j == 1 {
      LaidSecTable(ctx, c, d, p, a, q, b, t);
    } else if j == 2 {
      LaidPrimHdr(ctx, c, d, p, a, q, b, PrimHdrOf(s, ctx));
    } else {
      LaidPrimTable(ctx, c, d, p, a, q, b, t);
    }
  }

  /** What registers load as: by the primary copy if it is of one checksum, else by the secondary one. */
  function Outcome(ctx: ImgCtx, r: Regs): Load<Schem>
    requires Validates(ctx) && Saveable(r.primHdr) && Saveable(r.secHdr)
  {
    if TableCrc(EntsOf(r.primTable.table)) == TableCrc(EntsOf(r.primHdr.table))
    then LoadOk(SchemOf(PrimHdrOf(r.primHdr, ctx), EntsOf(r.primTable.table)))
    else BySecondary(ctx, r.secHdr, EntsOf(r.secTable.table))
  }

  lemma RegsLoad(ctx: ImgCtx, img: seq<byte>, r: Regs, n: nat)
    requires Validates(ctx) && InPlace(ctx, img, r, n)
    ensures LoadSchem(ctx, img) == Outcome(ctx, r)
  {
    PrimResidueIs(ctx, img, r, n);
    PrimWithResidue(ctx, img, r.primHdr);
    if TableCrc(EntsOf(r.primTable.table)) == TableCrc(EntsOf(r.primHdr.table)) {
      OwnSecNotFatal(ctx, img, r.secHdr);
      HdrsOf(r.primHdr, ctx);
      LoadsByPrim(ctx, img, PrimHdrOf(r.primHdr, ctx), EntsOf(r.primTable.table));
    } else {
      LoadsBySec(ctx, img, r.secHdr);
    }
  }

  lemma PrimResidueIs(ctx: ImgCtx, img: seq<byte>, r: Regs, n: nat)
    requires Validates(ctx) && InPlace(ctx, img, r, n)
    ensures Residue(ctx, img, n) == EntsOf(r.primTable.table) && SecResidue(ctx, img, n) == EntsOf(r.secTable.table)
  {
    TablesMap(ctx, n);
    EntsChained(r.primTable);
    EntsChained(r.secTable);
    EntriesRead(img, PrimTableAt(ctx), EntsOf(r.primTable.table));
    EntriesRead(img, SecTableAt(ctx), EntsOf(r.secTable.table));
  }

  //////////////////////////////////////////////////////////////////////////////
  // Sequences of cut saves
  //////////////////////////////////////////////////////////////////////////////

  /** The MBR "m" was written, and "k" regions of the GPT "g". */
  datatype Cut = Cut(m: Schem, g: Schem, k: nat)

  predicate CutsFit(cuts: seq<Cut>, n: nat) {
    forall i :: 0 <= i < |cuts| ==> |cuts[i].m.table| == M.MBR_PARTS && Sized(cuts[i].g, n) && cuts[i].k <= 4
  }

  /** The image after the first "i" of them. */
  function CutImg(ctx: ImgCtx, img: seq<byte>, cuts: seq<Cut>, n: nat, i: nat): (t: seq<byte>)
    requires Validates(ctx) && |img| == ctx.imgSz && CutsFit(cuts, n) && i <= |cuts|
    ensures |t| == |img|
  {
    if i == 0 then img
    else CutAfterMbr(ctx, cuts[i - 1].m, cuts[i - 1].g, CutImg(ctx, img, cuts, n, i - 1), cuts[i - 1].k)
  }

  /** Among the first "i", the last save that got as far as its j-th write, or -1. */
  function LastCut(cuts: seq<Cut>, j: nat, i: nat): (r: int)
    requires i <= |cuts|
    ensures -1 <= r < i && (r >= 0 ==> cuts[r].k >= j)
    ensures forall x :: r < x < i ==> cuts[x].k < j
  {
    if i == 0 then -1 else if cuts[i - 1].k >= j then i - 1 else LastCut(cuts, j, i - 1)
  }

  /** Its scheme, or the one that was there at first. */
  function Latest(first: Schem, cuts: seq<Cut>, j: nat, i: nat): Schem
    requires i <= |cuts|
  {
    if LastCut(cuts, j, i) == -1 then first else cuts[LastCut(cuts, j, i)].g
  }

  function RegsAfter(first: Schem, cuts: seq<Cut>, i: nat): Regs
    requires i <= |cuts|
  {
    Regs(Latest(first, cuts, 3, i), Latest(first, cuts, 4, i), Latest(first, cuts, 1, i), Latest(first, cuts, 2, i))
  }

  lemma CutsAssign(ctx: ImgCtx, img: seq<byte>, first: Schem, cuts: seq<Cut>, n: nat, i: nat)
    requires Validates(ctx) && Sized(first, n) && Intact(ctx, img, first) && CutsFit(cuts, n) && i <= |cuts|
    ensures InPlace(ctx, CutImg(ctx, img, cuts, n, i), RegsAfter(first, cuts, i), n)
  {
    FirstInPlace(ctx, img, first, n);
    for j := 0 to i
      invariant InPlace(ctx, CutImg(ctx, img, cuts, n, j), RegsAfter(first, cuts, j), n)
    {
      RegsStep(first, cuts, j + 1);
      OneAssigns(ctx, CutImg(ctx, img, cuts, n, j), RegsAfter(first, cuts, j), n, cuts[j],
                 CutImg(ctx, img, cuts, n, j + 1), RegsAfter(first, cuts, j + 1));
    }
  }

  lemma FirstInPlace(ctx: ImgCtx, img: seq<byte>, s: Schem, n: nat)
    requires Validates(ctx) && Sized(s, n) && Intact(ctx, img, s)
    ensures InPlace(ctx, img, Regs(s, s, s, s), n)
  {
    HdrsOf(s, ctx);
  }

  lemma OneAssigns(ctx: ImgCtx, img: seq<byte>, r: Regs, n: nat, c: Cut, t: seq<byte>, u: Regs)
    requires Validates(ctx) && InPlace(ctx, img, r, n)
    requires |c.m.table| == M.MBR_PARTS && Sized(c.g, n) && c.k <= 4
    requires t == CutAfterMbr(ctx, c.m, c.g, img, c.k) && u == Assign(r, c.g, c.k)
    ensures InPlace(ctx, t, u, n)
  {
    var a := M.SaveImg(ctx, img, c.m);
    MbrWriteAgrees(img, M.MbrOf(c.m, ctx));
    LaidStays(ctx, img, a, PrimHdrOf(r.primHdr, ctx), EntsOf(r.primTable.table),
              SecHdrOf(r.secHdr, ctx), EntsOf(r.secTable.table));
    CutAssigns(ctx, a, r, n, c.g, c.k);
  }

  lemma RegsStep(first: Schem, cuts: seq<Cut>, i: nat)
    requires 0 < i <= |cuts|
    requires cuts[i - 1].k <= 4
    ensures RegsAfter(first, cuts, i) == Assign(RegsAfter(first, cuts, i - 1), cuts[i - 1].g, cuts[i - 1].k)
  {
    AssignIs(RegsAfter(first, cuts, i - 1), cuts[i - 1].g, cuts[i - 1].k);
  }

  /**
    Over any sequence of cut saves, with equally many slots, collisions included:
    what the image loads as is decided by the last saves that got to their first,
    second, third and fourth write.
   */
  lemma CutsLoad(ctx: ImgCtx, img: seq<byte>, first: Schem, cuts: seq<Cut>, n: nat, i: nat)
    requires Validates(ctx) && Sized(first, n) && Intact(ctx, img, first) && CutsFit(cuts, n) && i <= |cuts|
    ensures AllSized(RegsAfter(first, cuts, i), n)
    ensures LoadSchem(ctx, CutImg(ctx, img, cuts, n, i)) == Outcome(ctx, RegsAfter(first, cuts, i))
  {
    CutsAssign(ctx, img, first, cuts, n, i);
    RegsLoad(ctx, CutImg(ctx, img, cuts, n, i), RegsAfter(first, cuts, i), n);
  }

  /** The two tables that meet in a copy do not differ in spite of equal checksums. */
  ghost predicate NoCollisions(r: Regs) {
    && !Collide(EntsOf(r.primTable.table), EntsOf(r.primHdr.table))
    && !Collide(EntsOf(r.secTable.table), EntsOf(r.secHdr.table))
  }

  /** Header and table of the primary copy belong together. */
  predicate PrimWhole(r: Regs) {
    EntsOf(r.primTable.table) == EntsOf(r.primHdr.table)
  }

  predicate SecWhole(r: Regs) {
    EntsOf(r.secTable.table) == EntsOf(r.secHdr.table)
  }

  lemma WholeLoads(ctx: ImgCtx, r: Regs, n: nat)
    requires Validates(ctx) && AllSized(r, n) && NoCollisions(r)
    ensures Outcome(ctx, r) == if PrimWhole(r) then LoadOk(Cleaned(r.primHdr))
                               else if SecWhole(r) then LoadOk(Cleaned(r.secHdr)) else LoadNotFound
  {
    ConvertBack(r.primHdr, ctx);
    ConvertBack(r.secHdr, ctx);
  }

  /**
    Without collisions the image loads as the last scheme whose primary header was
    written, if its table is that of the last complete save; else as the last one
    whose secondary header was written, if its table is that of the last complete
    secondary copy; else no GPT is found.
   */
  lemma CutsLoadWhole(ctx: ImgCtx, img: seq<byte>, first: Schem, cuts: seq<Cut>, n: nat, i: nat)
    requires Validates(ctx) && Sized(first, n) && Intact(ctx, img, first) && CutsFit(cuts, n) && i <= |cuts|
    requires NoCollisions(RegsAfter(first, cuts, i))
    ensures var r := RegsAfter(first, cuts, i);
            LoadSchem(ctx, CutImg(ctx, img, cuts, n, i))
            == if PrimWhole(r) then LoadOk(Cleaned(r.primHdr))
               else if SecWhole(r) then LoadOk(Cleaned(r.secHdr)) else LoadNotFound
  {
    CutsLoad(ctx, img, first, cuts, n, i);
    WholeLoads(ctx, RegsAfter(first, cuts, i), n);
  }

  /**
    A GPT is lost only by two saves: one that was cut right before its last write,
    and a later one that was cut right after its first, with none behind the one
    that got to its third write and none behind the other that wrote at all.
   */
  lemma LostBy(ctx: ImgCtx, img: seq<byte>, first: Schem, cuts: seq<Cut>, n: nat, i: nat)
    requires Validates(ctx) && Sized(first, n) && Intact(ctx, img, first) && CutsFit(cuts, n) && i <= |cuts|
    requires LoadSchem(ctx, CutImg(ctx, img, cuts, n, i)) == LoadNotFound
    ensures var a, b := LastCut(cuts, 3, i), LastCut(cuts, 1, i);
            && 0 <= a < b && cuts[a].k == 3 && cuts[b].k == 1
            && (forall x :: a < x < i ==> cuts[x].k <= 2) && (forall x :: b < x < i ==> cuts[x].k == 0)
  {
    CutsLoad(ctx, img, first, cuts, n, i);
    LostRegs(ctx, RegsAfter(first, cuts, i));
    LostCuts(first, cuts, i, RegsAfter(first, cuts, i));
  }

  lemma LostCuts(first: Schem, cuts: seq<Cut>, i: nat, r: Regs)
    requires i <= |cuts| && r == RegsAfter(first, cuts, i) && r.primHdr != r.primTable && r.secHdr != r.secTable
    ensures var a, b := LastCut(cuts, 3, i), LastCut(cuts, 1, i);
            && 0 <= a < b && 3 <= cuts[a].k < 4 && 1 <= cuts[b].k < 2
            && (forall x :: a < x < i ==> cuts[x].k <= 2) && (forall x :: b < x < i ==> cuts[x].k == 0)
  {
    LastDiffers(first, cuts, 3, 4, i);
    LastDiffers(first, cuts, 1, 2, i);
  }

  lemma LostRegs(ctx: ImgCtx, r: Regs)
    requires Validates(ctx) && Saveable(r.primHdr) && Saveable(r.secHdr) && Outcome(ctx, r) == LoadNotFound
    ensures r.primHdr != r.primTable && r.secHdr != r.secTable
  {
  }

  lemma LastDiffers(first: Schem, cuts: seq<Cut>, j: nat, k: nat, i: nat)
    requires i <= |cuts| && j < k && Latest(first, cuts, j, i) != Latest(first, cuts, k, i)
    ensures LastCut(cuts, j, i) >= 0 && j <= cuts[LastCut(cuts, j, i)].k < k
  {
    if LastCut(cuts, j, i) >= 0 {
      SameLast(cuts, j, k, i);
    }
  }

  lemma SameLast(cuts: seq<Cut>, j: nat, k: nat, i: nat)
    requires i <= |cuts| && j < k && LastCut(cuts, j, i) >= 0
    ensures cuts[LastCut(cuts, j, i)].k >= k ==> LastCut(cuts, k, i) == LastCut(cuts, j, i)
  {
  }

  /** The scheme that "i" complete saves leave. */
  function Complete(first: Schem, cuts: seq<Cut>, i: nat): Schem
    requires i <= |cuts|
  {
    if i == 0 then first else cuts[i - 1].g
  }

  lemma OneCutRegs(first: Schem, cuts: seq<Cut>, i: nat)
    requires 0 < i <= |cuts| && cuts[i - 1].k <= 4 && forall x :: 0 <= x < i - 1 ==> cuts[x].k == 4
    ensures var s := Complete(first, cuts, i - 1);
            RegsAfter(first, cuts, i) == Assign(Regs(s, s, s, s), cuts[i - 1].g, cuts[i - 1].k)
  {
    RegsStep(first, cuts, i);
  }

  lemma OneCutOutcome(s: Schem, g: Schem, k: nat, r: Regs, load: Load<Schem>)
    requires k <= 4 && r == Assign(Regs(s, s, s, s), g, k)
    requires load == if PrimWhole(r) then LoadOk(Cleaned(r.primHdr))
                     else if SecWhole(r) then LoadOk(Cleaned(r.secHdr)) else LoadNotFound
    ensures load == LoadOk(Cleaned(if k >= 3 then g else s))
  {
    AssignIs(Regs(s, s, s, s), g, k);
  }

  lemma OneCutFrom(ctx: ImgCtx, img: seq<byte>, r: Regs, n: nat, s: Schem, g: Schem, k: nat)
    requires Validates(ctx) && InPlace(ctx, img, r, n) && NoCollisions(r)
    requires k <= 4 && r == Assign(Regs(s, s, s, s), g, k)
    ensures LoadSchem(ctx, img) == LoadOk(Cleaned(if k >= 3 then g else s))
  {
    RegsLoad(ctx, img, r, n);
    WholeLoads(ctx, r, n);
    OneCutOutcome(s, g, k, r, LoadSchem(ctx, img));
  }

  /** If all but the last of some saves are complete, the old scheme or the new one is found. */
  lemma OneCutSafe(ctx: ImgCtx, img: seq<byte>, first: Schem, cuts: seq<Cut>, n: nat, i: nat)
    requires Validates(ctx) && Sized(first, n) && Intact(ctx, img, first) && CutsFit(cuts, n) && 0 < i <= |cuts|
    requires forall x :: 0 <= x < i - 1 ==> cuts[x].k == 4
    requires NoCollisions(RegsAfter(first, cuts, i))
    ensures LoadSchem(ctx, CutImg(ctx, img, cuts, n, i))
            == LoadOk(Cleaned(if cuts[i - 1].k >= 3 then cuts[i - 1].g else Complete(first, cuts, i - 1)))
  {
    CutsAssign(ctx, img, first, cuts, n, i);
    OneCutRegs(first, cuts, i);
    OneCutFrom(ctx, CutImg(ctx, img, cuts, n, i), RegsAfter(first, cuts, i), n,
               Complete(first, cuts, i - 1), cuts[i - 1].g, cuts[i - 1].k);
  }

  /** And the MBR that is found is that of the last of them. */
  lemma CutsMbr(ctx: ImgCtx, img: seq<byte>, cuts: seq<Cut>, n: nat, i: nat)
    requires Validates(ctx) && |img| == ctx.imgSz && CutsFit(cuts, n) && i < |cuts|
    requires M.MbrShaped(cuts[i].m, ctx) && M.Fits(cuts[i].m)
    ensures FoundMbr(ctx, CutImg(ctx, img, cuts, n, i + 1)) == Some(M.CleanedMbr(cuts[i].m))
  {
    MbrUpdated(ctx, cuts[i].m, cuts[i].g, CutImg(ctx, img, cuts, n, i), cuts[i].k);
  }
}
