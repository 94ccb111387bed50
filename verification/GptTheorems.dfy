/** The promises of the redundant GPT store, for every image and every scheme. */
module GptTheorems {
  import opened Words
  import opened ImgCtxs
  import opened Schemes
  import opened GptFormat
  import opened GptTable
  import opened GptStore
  import opened GptRecovery

  //////////////////////////////////////////////////////////////////////////////
  // Schemes
  //////////////////////////////////////////////////////////////////////////////

  /** A GPT scheme leaves the MBR-only fields of its used slots zero. */
  predicate GptShaped(s: Schem) {
    Saveable(s) && s.idI == 0
    && forall i :: 0 <= i < |s.table| && IsUsed(Gpt, s.table[i]) ==> s.table[i].typeI == 0 && s.table[i].bootInd == 0
  }

  /** Used partitions have names that survive the overlapping layout. */
  predicate NamesChained(s: Schem) {
    forall i :: 0 <= i < |s.table| && IsUsed(Gpt, s.table[i]) ==> Chained(s.table[i].name)
  }

  predicate Storable(s: Schem) {
    GptShaped(s) && NamesChained(s)
  }

  /** The scheme with its unused slots zeroed. */
  function Cleaned(s: Schem): Schem {
    s.(table := seq(|s.table|, i requires 0 <= i < |s.table| =>
         if IsUsed(s.kind, s.table[i]) then s.table[i] else NoPart()))
  }

  lemma NoNameChained()
    ensures Chained(NoPart().name) && Chained(NoEnt().name)
  {
  }

  lemma EntsChained(s: Schem)
    requires s.kind == Gpt && NamesChained(s)
    ensures AllChained(EntsOf(s.table))
  {
    NoNameChained();
  }

  /** Converting to entries and back loses nothing but the contents of unused slots. */
  lemma ConvertBack(s: Schem, ctx: ImgCtx)
    requires Validates(ctx) && GptShaped(s)
    ensures SchemOf(PrimHdrOf(s, ctx), EntsOf(s.table)) == Cleaned(s)
  {
    HdrsOf(s, ctx);
    PartsBack(s);
  }

  lemma PartsBack(s: Schem)
    requires GptShaped(s)
    ensures PartsOf(EntsOf(s.table)) == Cleaned(s).table
  {
    forall i | 0 <= i < |s.table|
      ensures PartsOf(EntsOf(s.table))[i] == Cleaned(s).table[i]
    {
      assert EntsOf(s.table)[i] == EntOf(s.table[i]);
    }
  }

  lemma HdrsMatch(s: Schem, ctx: ImgCtx)
    requires Validates(ctx) && Saveable(s)
    ensures Matching(ctx, ctx.imgSz, PrimHdrOf(s, ctx), EntsOf(s.table))
    ensures Matching(ctx, ctx.imgSz, SecHdrOf(s, ctx), EntsOf(s.table))
  {
    HdrsOf(s, ctx);
    TablesMap(ctx, |s.table|);
  }

  lemma TablesMap(ctx: ImgCtx, n: nat)
    requires Validates(ctx) && n <= MAX_PARTS
    ensures SecTableLba(ctx) >= 0
    ensures TableMaps(ctx, ctx.imgSz, PRIM_TABLE_LBA, n, GPT_ENTRY_SZ)
    ensures TableMaps(ctx, ctx.imgSz, SecTableLba(ctx), n, GPT_ENTRY_SZ)
  {
    Layout(ctx);
    TableSecsMono(ctx, n);
    TableFitsMax(ctx.imgSz, LbaToByte(ctx, PRIM_TABLE_LBA), n);
    TableFitsMax(ctx.imgSz, LbaToByte(ctx, SecTableLba(ctx)), n);
  }

  lemma TableSecsMono(ctx: ImgCtx, n: nat)
    requires Validates(ctx) && n <= MAX_PARTS
    ensures LbaToByte(ctx, ByteToLba(ctx, n * GPT_ENTRY_SZ, true)) <= LbaToByte(ctx, TableSecs(ctx)) == 128 * MAX_PARTS
  {
    Layout(ctx);
    ByteToLbaUp(ctx, n * GPT_ENTRY_SZ);
    var a, b := ByteToLba(ctx, n * GPT_ENTRY_SZ, true), TableSecs(ctx);
    assert b * ctx.secSz == 128 * MAX_PARTS;
    MulLess(ctx.secSz, a, b + 1) by {
      assert ctx.secSz * (b + 1) == b * ctx.secSz + ctx.secSz;
    }
    MulMono(ctx.secSz, a, b);
  }

  //////////////////////////////////////////////////////////////////////////////
  // Save and load
  //////////////////////////////////////////////////////////////////////////////

  /** After a save, both pairs are in place. */
  lemma Saved(ctx: ImgCtx, img: seq<byte>, s: Schem)
    requires Validates(ctx) && Saveable(s) && |img| == ctx.imgSz
    ensures PrimIntact(ctx, Save(ctx, img, s), s) && SecIntact(ctx, Save(ctx, img, s), s)
  {
    SaveProgress(ctx, img, s, 4);
    HdrsOf(s, ctx);
  }

  ghost predicate PrimIntact(ctx: ImgCtx, img: seq<byte>, s: Schem)
    requires Validates(ctx) && Saveable(s)
  {
    |img| == ctx.imgSz && HdrAt(ctx, img, PrimHdrOf(s, ctx)) && EntriesAt(img, PrimTableAt(ctx), EntsOf(s.table))
  }

  ghost predicate SecIntact(ctx: ImgCtx, img: seq<byte>, s: Schem)
    requires Validates(ctx) && Saveable(s)
  {
    |img| == ctx.imgSz && HdrAt(ctx, img, SecHdrOf(s, ctx)) && EntriesAt(img, SecTableAt(ctx), EntsOf(s.table))
  }

  lemma PrimLoads(ctx: ImgCtx, img: seq<byte>, s: Schem)
    requires Validates(ctx) && Saveable(s) && NamesChained(s) && PrimIntact(ctx, img, s)
    ensures LoadPair(ctx, img, PRIM_LBA) == PairOk(PrimHdrOf(s, ctx), EntsOf(s.table))
  {
    HdrsOf(s, ctx);
    HdrsMatch(s, ctx);
    EntsChained(s);
    PairLoads(ctx, img, PrimHdrOf(s, ctx), EntsOf(s.table));
  }

  lemma SecLoads(ctx: ImgCtx, img: seq<byte>, s: Schem)
    requires Validates(ctx) && Saveable(s) && NamesChained(s) && SecIntact(ctx, img, s)
    ensures LoadPair(ctx, img, EndLba(ctx)) == PairOk(SecHdrOf(s, ctx), EntsOf(s.table))
  {
    Layout(ctx);
    HdrsOf(s, ctx);
    HdrsMatch(s, ctx);
    EntsChained(s);
    PairLoads(ctx, img, SecHdrOf(s, ctx), EntsOf(s.table));
  }

  /** Saving and loading gives back both pairs exactly as they were built. */
  lemma SaveLoadPairs(ctx: ImgCtx, img: seq<byte>, s: Schem)
    requires Validates(ctx) && Saveable(s) && NamesChained(s) && |img| == ctx.imgSz
    ensures GptLoad(ctx, Save(ctx, img, s)) == LoadOk(GptFromSchem(s, ctx))
  {
    var t := Save(ctx, img, s);
    Saved(ctx, img, s);
    PrimLoads(ctx, t, s);
    SecLoads(ctx, t, s);
    HdrsOf(s, ctx);
  }

  /** Names that come from an image are chained. */
  lemma LoadedNamesChained(ctx: ImgCtx, img: seq<byte>)
    requires Validates(ctx) && LoadSchem(ctx, img).LoadOk?
    ensures Storable(LoadSchem(ctx, img).value)
  {
    var g := GptLoad(ctx, img).value;
    var prim := LoadPair(ctx, img, PRIM_LBA);
    LoadedPairChained(ctx, img, PRIM_LBA);
    LoadedPairChained(ctx, img, SecLba(ctx, prim));
    LoadedSchemStorable(g.hdrPrim, g.tablePrim);
  }

  lemma LoadedPairChained(ctx: ImgCtx, img: seq<byte>, lba: nat)
    requires ctx.secSz > 0
    ensures var r := LoadPair(ctx, img, lba); r.PairOk? ==> AllChained(r.table) && |r.table| <= MAX_PARTS
  {
    var r := LoadPair(ctx, img, lba);
    if r.PairOk? {
      var h := r.hdr;
      forall i | 0 <= i < |r.table|
        ensures Chained(r.table[i].name)
      {
        EntWriteRead(EntryAt(img, LbaToByte(ctx, h.tableLba), h.entryCnt, h.entrySz, i));
      }
    }
  }

  lemma LoadedSchemStorable(h: Hdr, table: seq<Ent>)
    requires AllChained(table) && |table| <= MAX_PARTS
    ensures Storable(SchemOf(h, table))
  {
    NoNameChained();
  }

  /**
    The round trip: a scheme comes back from the image it was saved to, with its
    unused slots zeroed, exactly if the names of its partitions are chained.
   */
  lemma RoundTripIff(ctx: ImgCtx, img: seq<byte>, s: Schem)
    requires Validates(ctx) && GptShaped(s) && |img| == ctx.imgSz
    ensures LoadSchem(ctx, Save(ctx, img, s)) == LoadOk(Cleaned(s)) <==> NamesChained(s)
  {
    if NamesChained(s) {
      SaveLoadPairs(ctx, img, s);
      ConvertBack(s, ctx);
    }
    if LoadSchem(ctx, Save(ctx, img, s)) == LoadOk(Cleaned(s)) {
      LoadedNamesChained(ctx, Save(ctx, img, s));
      CleanedNames(s);
    }
  }

  lemma CleanedNames(s: Schem)
    requires s.kind == Gpt && NamesChained(Cleaned(s))
    ensures NamesChained(s)
  {
    forall i | 0 <= i < |s.table| && IsUsed(Gpt, s.table[i])
      ensures Chained(s.table[i].name)
    {
      assert Cleaned(s).table[i] == s.table[i];
    }
  }

  //////////////////////////////////////////////////////////////////////////////
  // Losing one pair
  //////////////////////////////////////////////////////////////////////////////

  predicate Invalid(r: PairLoad) {
    r.PairHdrInv? || r.PairTableInv?
  }

  lemma HdrCrcIgnoresItself(h: Hdr, c: u32)
    ensures HdrCrc(h.(hdrCrc := c)) == HdrCrc(h)
  {
    assert h.(hdrCrc := c).(hdrCrc := 0) == h.(hdrCrc := 0);
  }

  /** The primary header is rebuilt field for field. */
  lemma PrimRebuilt(s: Schem, ctx: ImgCtx)
    requires Validates(ctx) && Saveable(s)
    ensures RestoredPrim(SecHdrOf(s, ctx)) == PrimHdrOf(s, ctx)
  {
    var p, q := PrimHdrOf(s, ctx), SecHdrOf(s, ctx);
    HdrsOf(s, ctx);
    SecFromPrim(s, ctx);
    RebuildInverse(p, SecTableLba(ctx), q);
  }

  lemma SecFromPrim(s: Schem, ctx: ImgCtx)
    requires Validates(ctx) && Saveable(s)
    ensures 0 <= SecTableLba(ctx) < 0x1_0000_0000_0000_0000
    ensures SecHdrOf(s, ctx) == RestoredHdr(PrimHdrOf(s, ctx), SecTableLba(ctx))
  {
    Layout(ctx);
  }

  lemma RebuildInverse(p: Hdr, lba: u64, q: Hdr)
    requires p.hdrCrc == HdrCrc(p) && p.tableLba == p.myLba + 1 && q == RestoredHdr(p, lba)
    ensures RestoredPrim(q) == p
  {
    var r := q.(myLba := q.altLba, altLba := q.myLba, tableLba := Add64(q.altLba, 1));
    assert r == p.(hdrCrc := r.hdrCrc);
    HdrCrcIgnoresItself(p, r.hdrCrc);
  }

  lemma RestoredHdrIff(h: Hdr, a: u64, b: u64)
    ensures RestoredHdr(h, a) == RestoredHdr(h, b) <==> a == b
  {
    assert RestoredHdr(h, a).tableLba == a && RestoredHdr(h, b).tableLba == b;
  }

  lemma SecsAtMost(ctx: ImgCtx, n: nat)
    requires Validates(ctx) && n <= MAX_PARTS
    ensures ByteToLba(ctx, n * GPT_ENTRY_SZ, true) <= TableSecs(ctx) <= LastLba(ctx) < 0x1_0000_0000_0000_0000
    ensures n == MAX_PARTS ==> ByteToLba(ctx, n * GPT_ENTRY_SZ, true) == TableSecs(ctx)
  {
    Layout(ctx);
    TableSecsMono(ctx, n);
    var a, b := ByteToLba(ctx, n * GPT_ENTRY_SZ, true), TableSecs(ctx);
    MulLess(ctx.secSz, a, b + 1) by {
      assert ctx.secSz * (b + 1) == LbaToByte(ctx, b) + ctx.secSz;
    }
  }

  /** The secondary header is rebuilt field for field exactly if the table takes as many sectors as 128 entries do. */
  lemma SecRebuiltIff(s: Schem, ctx: ImgCtx)
    requires Validates(ctx) && Saveable(s)
    ensures RestoredSec(ctx, PrimHdrOf(s, ctx)) == SecHdrOf(s, ctx)
            <==> ByteToLba(ctx, |s.table| * GPT_ENTRY_SZ, true) == TableSecs(ctx)
    ensures |s.table| == MAX_PARTS ==> RestoredSec(ctx, PrimHdrOf(s, ctx)) == SecHdrOf(s, ctx)
  {
    HdrsOf(s, ctx);
    SecFromPrim(s, ctx);
    SecsAtMost(ctx, |s.table|);
    SecRebuiltFrom(ctx, PrimHdrOf(s, ctx), |s.table|);
  }

  lemma SecRebuiltFrom(ctx: ImgCtx, p: Hdr, n: nat)
    requires Validates(ctx) && p.altLba == LastLba(ctx) && p.entryCnt == n && p.entrySz == GPT_ENTRY_SZ
    requires ByteToLba(ctx, n * GPT_ENTRY_SZ, true) <= TableSecs(ctx) <= LastLba(ctx) < 0x1_0000_0000_0000_0000
    ensures RestoredSec(ctx, p) == RestoredHdr(p, SecTableLba(ctx))
            <==> ByteToLba(ctx, n * GPT_ENTRY_SZ, true) == TableSecs(ctx)
  {
    var a := ByteToLba(ctx, n * GPT_ENTRY_SZ, true);
    assert Sub64(p.altLba, a) == LastLba(ctx) - a;
    RestoredHdrIff(p, Sub64(p.altLba, a), SecTableLba(ctx));
  }

  /**
    Whatever happens to the primary header and table, as long as the loader
    calls the pair invalid the image loads as it was saved, both pairs included.
   */
  lemma PrimaryRecovered(ctx: ImgCtx, img: seq<byte>, s: Schem)
    requires Validates(ctx) && Saveable(s) && NamesChained(s)
    requires SecIntact(ctx, img, s) && Invalid(LoadPair(ctx, img, PRIM_LBA))
    ensures GptLoad(ctx, img) == LoadOk(GptFromSchem(s, ctx))
    ensures GptShaped(s) ==> LoadSchem(ctx, img) == LoadOk(Cleaned(s))
  {
    PrimaryRebuilt(ctx, img, s);
    if GptShaped(s) {
      SchemLoads(ctx, img, s, GptFromSchem(s, ctx));
    }
  }

  lemma PrimaryRebuilt(ctx: ImgCtx, img: seq<byte>, s: Schem)
    requires Validates(ctx) && Saveable(s) && NamesChained(s)
    requires SecIntact(ctx, img, s) && Invalid(LoadPair(ctx, img, PRIM_LBA))
    ensures GptLoad(ctx, img) == LoadOk(GptFromSchem(s, ctx))
  {
    SecLoads(ctx, img, s);
    FromSecondary(ctx, img, SecHdrOf(s, ctx), EntsOf(s.table));
    PrimRebuilt(s, ctx);
  }

  lemma FromSecondary(ctx: ImgCtx, img: seq<byte>, h: Hdr, t: seq<Ent>)
    requires Validates(ctx) && Invalid(LoadPair(ctx, img, PRIM_LBA)) && LoadPair(ctx, img, EndLba(ctx)) == PairOk(h, t)
    ensures GptLoad(ctx, img) == LoadOk(GptValue(RestoredPrim(h), t, h, t))
  {
  }

  lemma FromPrimary(ctx: ImgCtx, img: seq<byte>, h: Hdr, t: seq<Ent>)
    requires Validates(ctx) && LoadPair(ctx, img, PRIM_LBA) == PairOk(h, t) && Invalid(LoadPair(ctx, img, h.altLba))
    ensures GptLoad(ctx, img) == LoadOk(GptValue(h, t, RestoredSec(ctx, h), t))
  {
  }

  /** The scheme is taken from the primary pair. */
  lemma SchemLoads(ctx: ImgCtx, img: seq<byte>, s: Schem, g: GptValue)
    requires Validates(ctx) && GptShaped(s) && GptLoad(ctx, img) == LoadOk(g)
    requires g.hdrPrim == PrimHdrOf(s, ctx) && g.tablePrim == EntsOf(s.table)
    ensures LoadSchem(ctx, img) == LoadOk(Cleaned(s))
  {
    ConvertBack(s, ctx);
  }

  /**
    The same for the secondary pair; its header is rebuilt as saved for tables
    that take as many sectors as 128 entries do.
   */
  lemma SecondaryRecovered(ctx: ImgCtx, img: seq<byte>, s: Schem)
    requires Validates(ctx) && Saveable(s) && NamesChained(s)
    requires PrimIntact(ctx, img, s) && Invalid(LoadPair(ctx, img, EndLba(ctx)))
    ensures GptLoad(ctx, img) == LoadOk(GptFromSchem(s, ctx).(hdrSec := RestoredSec(ctx, PrimHdrOf(s, ctx))))
    ensures GptLoad(ctx, img) == LoadOk(GptFromSchem(s, ctx))
            <==> ByteToLba(ctx, |s.table| * GPT_ENTRY_SZ, true) == TableSecs(ctx)
    ensures GptShaped(s) ==> LoadSchem(ctx, img) == LoadOk(Cleaned(s))
  {
    SecondaryRebuilt(ctx, img, s);
    SecRebuiltIff(s, ctx);
    if GptShaped(s) {
      SchemLoads(ctx, img, s, GptFromSchem(s, ctx).(hdrSec := RestoredSec(ctx, PrimHdrOf(s, ctx))));
    }
  }

  lemma SecondaryRebuilt(ctx: ImgCtx, img: seq<byte>, s: Schem)
    requires Validates(ctx) && Saveable(s) && NamesChained(s)
    requires PrimIntact(ctx, img, s) && Invalid(LoadPair(ctx, img, EndLba(ctx)))
    ensures GptLoad(ctx, img) == LoadOk(GptFromSchem(s, ctx).(hdrSec := RestoredSec(ctx, PrimHdrOf(s, ctx))))
  {
    PrimLoads(ctx, img, s);
    HdrsOf(s, ctx);
    FromPrimary(ctx, img, PrimHdrOf(s, ctx), EntsOf(s.table));
  }

  /** Damage that stays in front of the secondary table leaves the secondary pair intact. */
  lemma DamagedFront(ctx: ImgCtx, saved: seq<byte>, img: seq<byte>, s: Schem)
    requires Validates(ctx) && Saveable(s) && SecIntact(ctx, saved, s)
    requires Agree(saved, img, SecTableAt(ctx), |saved|)
    ensures SecIntact(ctx, img, s)
  {
    Places(ctx);
    HdrsOf(s, ctx);
    HdrStays(ctx, saved, img, SecTableAt(ctx), |saved|, SecHdrOf(s, ctx));
    EntriesStay(saved, img, SecTableAt(ctx), |saved|, SecTableAt(ctx), EntsOf(s.table));
  }

  lemma DamagedBack(ctx: ImgCtx, saved: seq<byte>, img: seq<byte>, s: Schem)
    requires Validates(ctx) && Saveable(s) && PrimIntact(ctx, saved, s)
    requires Agree(saved, img, 0, SecTableAt(ctx))
    ensures PrimIntact(ctx, img, s)
  {
    Places(ctx);
    HdrsOf(s, ctx);
    HdrStays(ctx, saved, img, 0, SecTableAt(ctx), PrimHdrOf(s, ctx));
    EntriesStay(saved, img, 0, SecTableAt(ctx), PrimTableAt(ctx), EntsOf(s.table));
  }

  //////////////////////////////////////////////////////////////////////////////
  // A save cut short
  //////////////////////////////////////////////////////////////////////////////

  /** With a primary pair that loads, only a fatal secondary one stops it. */
  lemma LoadsByPrim(ctx: ImgCtx, img: seq<byte>, h: Hdr, table: seq<Ent>)
    requires Validates(ctx) && LoadPair(ctx, img, PRIM_LBA) == PairOk(h, table)
    ensures LoadSchem(ctx, img)
            == if LoadPair(ctx, img, h.altLba).PairFatal? then LoadFatal else LoadOk(SchemOf(h, table))
  {
    CombineByPrim(ctx, h, table, LoadPair(ctx, img, h.altLba));
  }

  lemma CombineByPrim(ctx: ImgCtx, h: Hdr, table: seq<Ent>, sec: PairLoad)
    requires ctx.secSz > 0
    ensures var r := Combine(ctx, PairOk(h, table), sec);
            if sec.PairFatal? then r == LoadFatal
            else r.LoadOk? && r.value.hdrPrim == h && r.value.tablePrim == table
  {
  }

  /** With the primary pair intact the scheme loads, unless a secondary header found is unloadable. */
  lemma PrimaryDecides(ctx: ImgCtx, img: seq<byte>, s: Schem)
    requires Validates(ctx) && Storable(s) && PrimIntact(ctx, img, s)
    ensures LoadSchem(ctx, img) == LoadOk(Cleaned(s))
            <==> !LoadPair(ctx, img, EndLba(ctx)).PairFatal?
  {
    PrimLoads(ctx, img, s);
    LoadsByPrim(ctx, img, PrimHdrOf(s, ctx), EntsOf(s.table));
    HdrsOf(s, ctx);
    ConvertBack(s, ctx);
  }

  /** A header of ours at the end of the image is never fatal, whatever its table holds. */
  lemma OwnSecNotFatal(ctx: ImgCtx, img: seq<byte>, s: Schem)
    requires Validates(ctx) && Saveable(s) && |img| == ctx.imgSz && HdrAt(ctx, img, SecHdrOf(s, ctx))
    ensures !LoadPair(ctx, img, EndLba(ctx)).PairFatal?
  {
    HdrsOf(s, ctx);
    HdrsMatch(s, ctx);
    OwnHdrNotFatal(ctx, img, SecHdrOf(s, ctx), EntsOf(s.table));
  }

  lemma OwnHdrNotFatal(ctx: ImgCtx, img: seq<byte>, h: Hdr, table: seq<Ent>)
    requires ctx.secSz > 0 && HdrAt(ctx, img, h) && Matching(ctx, |img|, h, table)
    ensures !LoadPair(ctx, img, h.myLba).PairFatal?
  {
    HdrLoads(ctx, img, h);
    MatchingNotFatal(ctx, img, h, table);
  }

  lemma MatchingNotFatal(ctx: ImgCtx, img: seq<byte>, h: Hdr, table: seq<Ent>)
    requires ctx.secSz > 0 && Matching(ctx, |img|, h, table)
    ensures !LoadPairTable(ctx, img, h).PairFatal?
  {
  }

  /** No header at the end of the image stops the program. */
  ghost predicate SecNotFatal(ctx: ImgCtx, img: seq<byte>)
    requires Validates(ctx)
  {
    !LoadPair(ctx, img, EndLba(ctx)).PairFatal?
  }

  /** The entries that the loader finds at the primary table when it expects "n" of them. */
  function Residue(ctx: ImgCtx, img: seq<byte>, n: nat): seq<Ent>
    requires Validates(ctx) && |img| == ctx.imgSz && n <= MAX_PARTS
  {
    TablesMap(ctx, n);
    TableFromBytes(img, LbaToByte(ctx, PRIM_TABLE_LBA), n, GPT_ENTRY_SZ)
  }

  /** What a new primary header over the entries that are left loads as. */
  function LoadsThird(ctx: ImgCtx, before: seq<byte>, next: Schem): Schem
    requires Validates(ctx) && |before| == ctx.imgSz && Saveable(next)
  {
    var rest := Residue(ctx, before, |next.table|);
    if TableCrc(rest) == TableCrc(EntsOf(next.table)) then SchemOf(PrimHdrOf(next, ctx), rest) else Cleaned(next)
  }

  /** What an image loads as when saving "next" over "prev" is cut after "k" region writes. */
  function CutLoads(ctx: ImgCtx, before: seq<byte>, prev: Schem, next: Schem, k: nat): Schem
    requires Validates(ctx) && |before| == ctx.imgSz && Saveable(prev) && Saveable(next)
  {
    if k <= 2 then Cleaned(prev) else if k == 3 then LoadsThird(ctx, before, next) else Cleaned(next)
  }

  /**
    Crash consistency.  An image holds "prev", and saving "next" is cut after "k"
    of its four region writes.  Up to the write of the primary header the image
    loads as "prev"; from then on it loads as "next" - except that between the
    last two writes entries left at the primary table whose checksum collides
    with that of the new table are taken for it.
   */
  lemma CrashConsistency(ctx: ImgCtx, img: seq<byte>, prev: Schem, next: Schem, k: nat)
    requires Validates(ctx) && |img| == ctx.imgSz && Storable(prev) && Storable(next) && k <= 4
    ensures var before := Save(ctx, img, prev);
            LoadSchem(ctx, CutSave(ctx, before, next, k)) == LoadOk(CutLoads(ctx, before, prev, next, k))
  {
    Saved(ctx, img, prev);
    SavedNotFatal(ctx, Save(ctx, img, prev), prev);
    CrashFromPrimary(ctx, Save(ctx, img, prev), prev, next, k);
  }

  lemma SavedNotFatal(ctx: ImgCtx, img: seq<byte>, s: Schem)
    requires Validates(ctx) && Saveable(s) && SecIntact(ctx, img, s)
    ensures SecNotFatal(ctx, img)
  {
    OwnSecNotFatal(ctx, img, s);
  }

  /** The same from any image in which the primary pair of the old scheme is in place, whatever became of the other. */
  lemma CrashFromPrimary(ctx: ImgCtx, before: seq<byte>, prev: Schem, next: Schem, k: nat)
    requires Validates(ctx) && Storable(prev) && Storable(next) && k <= 4
    requires PrimIntact(ctx, before, prev) && SecNotFatal(ctx, before)
    ensures LoadSchem(ctx, CutSave(ctx, before, next, k)) == LoadOk(CutLoads(ctx, before, prev, next, k))
  {
    if k <= 2 {
      CutEarly(ctx, before, prev, next, k);
    } else {
      CutLate(ctx, before, prev, next, k);
    }
  }

  lemma CutLate(ctx: ImgCtx, before: seq<byte>, prev: Schem, next: Schem, k: nat)
    requires Validates(ctx) && Saveable(prev) && Storable(next) && |before| == ctx.imgSz && 3 <= k <= 4
    ensures LoadSchem(ctx, CutSave(ctx, before, next, k)) == LoadOk(CutLoads(ctx, before, prev, next, k))
  {
    if k == 3 {
      CutThird(ctx, before, next, k);
    } else {
      CutFourth(ctx, before, next, k);
    }
  }

  lemma CutThird(ctx: ImgCtx, before: seq<byte>, next: Schem, k: nat)
    requires Validates(ctx) && Storable(next) && |before| == ctx.imgSz && k == 3
    ensures LoadSchem(ctx, CutSave(ctx, before, next, k)) == LoadOk(LoadsThird(ctx, before, next))
  {
    SaveProgress(ctx, before, next, k);
    CutBeforeLastTable(ctx, before, CutSave(ctx, before, next, k), next);
  }

  lemma CutFourth(ctx: ImgCtx, before: seq<byte>, next: Schem, k: nat)
    requires Validates(ctx) && Storable(next) && |before| == ctx.imgSz && k == 4
    ensures LoadSchem(ctx, CutSave(ctx, before, next, k)) == LoadOk(Cleaned(next))
  {
    RoundTripIff(ctx, before, next);
  }

  lemma CutEarly(ctx: ImgCtx, before: seq<byte>, prev: Schem, next: Schem, k: nat)
    requires Validates(ctx) && Storable(prev) && Saveable(next) && k <= 2
    requires PrimIntact(ctx, before, prev) && SecNotFatal(ctx, before)
    ensures LoadSchem(ctx, CutSave(ctx, before, next, k)) == LoadOk(Cleaned(prev))
    ensures PrimIntact(ctx, CutSave(ctx, before, next, k), prev) && SecNotFatal(ctx, CutSave(ctx, before, next, k))
  {
    SaveProgress(ctx, before, next, k);
    var cut := CutSave(ctx, before, next, k);
    DamagedBack(ctx, before, cut, prev);
    if k > 0 {
      OwnSecNotFatal(ctx, cut, next);
    }
    PrimaryDecides(ctx, cut, prev);
  }

  lemma CutBeforeLastTable(ctx: ImgCtx, before: seq<byte>, cut: seq<byte>, s: Schem)
    requires Validates(ctx) && Storable(s) && |before| == ctx.imgSz
    requires Progress(ctx, before, cut, PrimHdrOf(s, ctx), SecHdrOf(s, ctx), EntsOf(s.table), 3)
    ensures LoadSchem(ctx, cut) == LoadOk(LoadsThird(ctx, before, s))
  {
    SecLoads(ctx, cut, s);
    HdrsOf(s, ctx);
    ResidueStays(ctx, before, cut, |s.table|);
    PrimWithResidue(ctx, cut, s);
    if TableCrc(Residue(ctx, before, |s.table|)) == TableCrc(EntsOf(s.table)) {
      LoadsByPrim(ctx, cut, PrimHdrOf(s, ctx), Residue(ctx, before, |s.table|));
    } else {
      PrimaryRecovered(ctx, cut, s);
    }
  }

  /** A new primary header over whatever entries are there. */
  lemma PrimWithResidue(ctx: ImgCtx, img: seq<byte>, s: Schem)
    requires Validates(ctx) && Saveable(s) && |img| == ctx.imgSz && HdrAt(ctx, img, PrimHdrOf(s, ctx))
    ensures var rest := Residue(ctx, img, |s.table|);
            LoadPair(ctx, img, PRIM_LBA)
            == if TableCrc(rest) == TableCrc(EntsOf(s.table)) then PairOk(PrimHdrOf(s, ctx), rest) else PairTableInv
  {
    HdrsOf(s, ctx);
    HdrsMatch(s, ctx);
    HdrLoads(ctx, img, PrimHdrOf(s, ctx));
    TablesMap(ctx, |s.table|);
    LoadsAs(ctx, img, PrimHdrOf(s, ctx), Residue(ctx, img, |s.table|));
  }

  /** A header loads with whatever entries are at its table, if their checksum is right. */
  lemma LoadsAs(ctx: ImgCtx, img: seq<byte>, h: Hdr, rest: seq<Ent>)
    requires ctx.secSz > 0 && h.entryCnt <= MAX_PARTS && TableMaps(ctx, |img|, h.tableLba, h.entryCnt, h.entrySz)
    requires rest == LoadTable(ctx, img, h)
    ensures LoadPairTable(ctx, img, h) == if TableCrc(rest) == h.tableCrc then PairOk(h, rest) else PairTableInv
  {
  }

  lemma ResidueStays(ctx: ImgCtx, s: seq<byte>, t: seq<byte>, n: nat)
    requires Validates(ctx) && |s| == ctx.imgSz && n <= MAX_PARTS
    requires Agree(s, t, PrimTableAt(ctx), SecTableAt(ctx))
    ensures Residue(ctx, s, n) == Residue(ctx, t, n)
  {
    Places(ctx);
    TablesMap(ctx, n);
    TableFitsMax(SecTableAt(ctx), PrimTableAt(ctx), n);
    TableReadStays(s, t, PrimTableAt(ctx), SecTableAt(ctx), PrimTableAt(ctx), n, GPT_ENTRY_SZ);
  }

  /** With equally many slots, what is left at the primary table is the old table. */
  lemma ResidueIsOld(ctx: ImgCtx, img: seq<byte>, s: Schem)
    requires Validates(ctx) && Storable(s) && PrimIntact(ctx, img, s)
    ensures Residue(ctx, img, |s.table|) == EntsOf(s.table)
  {
    EntsChained(s);
    TablesMap(ctx, |s.table|);
    EntriesRead(img, LbaToByte(ctx, PRIM_TABLE_LBA), EntsOf(s.table));
  }

  /**
    The image with "prev" whose save of "next" was cut after "k" writes loads as one
    of the two, changing over at the third.
   */
  ghost predicate AtomicAt(ctx: ImgCtx, before: seq<byte>, prev: Schem, next: Schem, k: nat)
    requires Validates(ctx) && |before| == ctx.imgSz && Saveable(prev) && Saveable(next) && k <= 4
  {
    LoadSchem(ctx, CutSave(ctx, before, next, k)) == LoadOk(if k <= 2 then Cleaned(prev) else Cleaned(next))
  }

  /** What is left at the primary table is not taken for the new table, or holds the same partitions. */
  ghost predicate Harmless(ctx: ImgCtx, before: seq<byte>, next: Schem)
    requires Validates(ctx) && |before| == ctx.imgSz && Saveable(next)
  {
    var rest := Residue(ctx, before, |next.table|);
    TableCrc(rest) == TableCrc(EntsOf(next.table)) ==> PartsOf(rest) == Cleaned(next).table
  }

  lemma AtomicAtIff(ctx: ImgCtx, before: seq<byte>, prev: Schem, next: Schem, k: nat)
    requires Validates(ctx) && Storable(prev) && Storable(next) && k <= 4
    requires PrimIntact(ctx, before, prev) && SecNotFatal(ctx, before)
    ensures AtomicAt(ctx, before, prev, next, k) <==> (k == 3 ==> Harmless(ctx, before, next))
  {
    CrashFromPrimary(ctx, before, prev, next, k);
    MixtureIsNewIff(ctx, next, Residue(ctx, before, |next.table|));
  }

  /** A new header over other entries is the new scheme exactly if they hold its partitions. */
  lemma MixtureIsNewIff(ctx: ImgCtx, next: Schem, rest: seq<Ent>)
    requires Validates(ctx) && GptShaped(next)
    ensures SchemOf(PrimHdrOf(next, ctx), rest) == Cleaned(next) <==> PartsOf(rest) == Cleaned(next).table
  {
    HdrsOf(next, ctx);
  }

  /**
    So every cut of a save loads as exactly the old scheme or exactly the new one,
    changing over at the primary header, if and only if what is left at the
    primary table is harmless.
   */
  lemma CrashAtomicIff(ctx: ImgCtx, before: seq<byte>, prev: Schem, next: Schem)
    requires Validates(ctx) && Storable(prev) && Storable(next)
    requires PrimIntact(ctx, before, prev) && SecNotFatal(ctx, before)
    ensures (forall k: nat :: k <= 4 ==> AtomicAt(ctx, before, prev, next, k)) <==> Harmless(ctx, before, next)
  {
    forall k: nat | k <= 4
      ensures AtomicAt(ctx, before, prev, next, k) <==> (k == 3 ==> Harmless(ctx, before, next))
    {
      AtomicAtIff(ctx, before, prev, next, k);
    }
    var cutAt: nat := 3;
    assert cutAt <= 4;
    assert AtomicAt(ctx, before, prev, next, cutAt) <==> Harmless(ctx, before, next);
  }

  ghost predicate Collide(s: seq<Ent>, t: seq<Ent>) {
    TableCrc(s) == TableCrc(t) && s != t
  }

  /** With equally many slots: exactly if the two tables do not collide. */
  lemma HarmlessIff(ctx: ImgCtx, before: seq<byte>, prev: Schem, next: Schem)
    requires Validates(ctx) && Storable(prev) && Storable(next) && PrimIntact(ctx, before, prev)
    requires |prev.table| == |next.table|
    ensures Harmless(ctx, before, next) <==> !Collide(EntsOf(prev.table), EntsOf(next.table))
  {
    ResidueIsOld(ctx, before, prev);
    PartsBack(next);
    TablesFromParts(prev, next);
  }

  /** Entries made from schemes are determined by the partitions made from them. */
  lemma TablesFromParts(s: Schem, t: Schem)
    requires |s.table| == |t.table|
    ensures PartsOf(EntsOf(s.table)) == PartsOf(EntsOf(t.table)) ==> EntsOf(s.table) == EntsOf(t.table)
  {
    if PartsOf(EntsOf(s.table)) == PartsOf(EntsOf(t.table)) {
      forall i | 0 <= i < |s.table|
        ensures EntsOf(s.table)[i] == EntsOf(t.table)[i]
      {
        assert PartsOf(EntsOf(s.table))[i] == PartsOf(EntsOf(t.table))[i];
      }
    }
  }
}
