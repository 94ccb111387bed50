/**
  What loading and saving a GPT do to an image, as values: two header and table
  pairs, written region by region (libs/libpartman/src/gpt.c:386-831).
 */
module GptStore {
  import opened Words
  import opened Memutils
  import opened Guids
  import opened ImgCtxs
  import opened Schemes
  import opened GptFormat
  import opened GptTable

  const GPT_REV: u32 := 0x0001_0000
  const GPT_ENTRY_SZ: u32 := 128

  /** In-memory GPT: both headers, and the counted entries of both tables. */
  datatype GptValue = GptValue(hdrPrim: Hdr, tablePrim: seq<Ent>, hdrSec: Hdr, tableSec: seq<Ent>)

  datatype PairLoad = PairOk(hdr: Hdr, table: seq<Ent>) | PairHdrInv | PairTableInv | PairFatal

  datatype Load<T> = LoadOk(value: T) | LoadNotFound | LoadFatal

  //////////////////////////////////////////////////////////////////////////////
  // Positions
  //////////////////////////////////////////////////////////////////////////////

  function LastLba(ctx: ImgCtx): int
    requires ctx.secSz > 0
  {
    ByteToLba(ctx, ctx.imgSz, false) - 1
  }

  function TableSecs(ctx: ImgCtx): nat
    requires ctx.secSz > 0
  {
    ByteToLba(ctx, MAX_PARTS * GPT_ENTRY_SZ, true)
  }

  const PRIM_LBA := 1
  const PRIM_TABLE_LBA := 2

  function SecTableLba(ctx: ImgCtx): int
    requires ctx.secSz > 0
  {
    LastLba(ctx) - TableSecs(ctx)
  }

  /**
    On every image that the program accepts, the MBR bytes, the primary header,
    the primary table, a usable range of at least one sector, the secondary
    table and the secondary header follow one another inside the image.
   */
  lemma Layout(ctx: ImgCtx)
    requires Validates(ctx)
    ensures LbaToByte(ctx, TableSecs(ctx)) == 128 * MAX_PARTS
    ensures 512 <= LbaToByte(ctx, PRIM_LBA)
    ensures LbaToByte(ctx, PRIM_LBA) + HDR_SZ <= LbaToByte(ctx, PRIM_TABLE_LBA)
    ensures LbaToByte(ctx, PRIM_TABLE_LBA) + 128 * MAX_PARTS == LbaToByte(ctx, PRIM_TABLE_LBA + TableSecs(ctx))
    ensures PRIM_TABLE_LBA + TableSecs(ctx) <= SecTableLba(ctx) - 1
    ensures LbaToByte(ctx, PRIM_TABLE_LBA + TableSecs(ctx)) < LbaToByte(ctx, SecTableLba(ctx))
    ensures LbaToByte(ctx, SecTableLba(ctx)) + 128 * MAX_PARTS == LbaToByte(ctx, LastLba(ctx))
    ensures LbaToByte(ctx, LastLba(ctx)) + ctx.secSz <= ctx.imgSz
  {
    var n, m := TableSecs(ctx), LastLba(ctx);
    ByteToLbaDown(ctx, ctx.imgSz);
    TableSecsIs(ctx);
    LastLbaAtLeast(ctx);
    LbaSum(ctx, PRIM_TABLE_LBA, n);
    LbaSum(ctx, m - n, n);
    MulMono(ctx.secSz, n + 3, m - n);
    LbaSum(ctx, n + 2, 1);
    LbaSum(ctx, m, 1);
  }

  lemma TableSecsIs(ctx: ImgCtx)
    requires Validates(ctx)
    ensures LbaToByte(ctx, TableSecs(ctx)) == 128 * MAX_PARTS && 4 <= TableSecs(ctx) <= 32
    ensures TableSecs(ctx) > 4 ==> ctx.secSz <= 2048
  {
    assert MAX_PARTS * GPT_ENTRY_SZ == 16384;
  }

  /** There are at least 128 sectors, and 256 unless they are 4096 bytes long. */
  lemma LastLbaAtLeast(ctx: ImgCtx)
    requires Validates(ctx)
    ensures LastLba(ctx) >= 127 && (ctx.secSz <= 2048 ==> LastLba(ctx) >= 255)
  {
    ByteToLbaDown(ctx, ctx.imgSz);
    var n := ByteToLba(ctx, ctx.imgSz, false);
    MulLess(ctx.secSz, if ctx.secSz <= 2048 then 255 else 127, n) by {
      assert n * ctx.secSz == ctx.secSz * n;
    }
  }

  lemma LbaSum(ctx: ImgCtx, a: nat, b: nat)
    ensures LbaToByte(ctx, a + b) == LbaToByte(ctx, a) + LbaToByte(ctx, b)
  {
  }

  //////////////////////////////////////////////////////////////////////////////
  // Loading
  //////////////////////////////////////////////////////////////////////////////

  /** The mapped table and all entries read from it lie in the image. */
  predicate TableMaps(ctx: ImgCtx, len: nat, lba: nat, n: nat, sz: nat)
    requires ctx.secSz > 0
  {
    && LbaToByte(ctx, lba) + LbaToByte(ctx, ByteToLba(ctx, n * sz, true)) <= len
    && TableFits(len, LbaToByte(ctx, lba), n, sz)
  }

  predicate HdrMaps(ctx: ImgCtx, len: nat, lba: nat) {
    LbaToByte(ctx, lba) + ctx.secSz <= len && LbaToByte(ctx, lba) + HDR_SZ <= len
  }

  function HdrSlice(ctx: ImgCtx, img: seq<byte>, lba: nat): (s: seq<byte>)
    requires HdrMaps(ctx, |img|, lba)
    ensures |s| == HDR_SZ
  {
    img[LbaToByte(ctx, lba)..LbaToByte(ctx, lba) + HDR_SZ]
  }

  /** The signature, the checksum and the position of a header agree. */
  predicate HdrValid(s: seq<byte>, lba: nat)
    requires |s| == HDR_SZ
  {
    s[..8] == GPT_SIG && HdrFromBytes(s).hdrCrc == HdrCrc(HdrFromBytes(s)) && HdrFromBytes(s).myLba == lba
  }

  function LoadTable(ctx: ImgCtx, img: seq<byte>, h: Hdr): (table: seq<Ent>)
    requires ctx.secSz > 0 && TableMaps(ctx, |img|, h.tableLba, h.entryCnt, h.entrySz)
    ensures |table| == h.entryCnt
  {
    TableFromBytes(img, LbaToByte(ctx, h.tableLba), h.entryCnt, h.entrySz)
  }

  /** Mapping sectors that are not in the image is fatal. */
  function LoadPair(ctx: ImgCtx, img: seq<byte>, lba: nat): PairLoad
    requires ctx.secSz > 0
  {
    if !HdrMaps(ctx, |img|, lba) then PairFatal
    else
      var s := HdrSlice(ctx, img, lba);
      if !HdrValid(s, lba) then PairHdrInv else LoadPairTable(ctx, img, HdrFromBytes(s))
  }

  function LoadPairTable(ctx: ImgCtx, img: seq<byte>, h: Hdr): PairLoad
    requires ctx.secSz > 0
  {
    if h.entryCnt > MAX_PARTS then PairFatal
    else if !TableMaps(ctx, |img|, h.tableLba, h.entryCnt, h.entrySz) then PairFatal
    else if TableCrc(LoadTable(ctx, img, h)) != h.tableCrc then PairTableInv
    else PairOk(h, LoadTable(ctx, img, h))
  }

  /** A 64-bit difference. */
  function Sub64(a: u64, b: nat): u64 {
    (a - b) % 0x1_0000_0000_0000_0000
  }

  function Add64(a: u64, b: nat): u64 {
    (a + b) % 0x1_0000_0000_0000_0000
  }

  /** The header of the other pair: positions swapped, a table position of its own, a new checksum. */
  function RestoredHdr(h: Hdr, tableLba: u64): Hdr {
    var r := h.(myLba := h.altLba, altLba := h.myLba, tableLba := tableLba);
    r.(hdrCrc := HdrCrc(r))
  }

  /** The last sector of the image, where the secondary header lies. */
  function EndLba(ctx: ImgCtx): (lba: nat)
    requires Validates(ctx)
    ensures lba == LastLba(ctx)
  {
    Layout(ctx);
    LastLba(ctx)
  }

  function SecLba(ctx: ImgCtx, prim: PairLoad): nat
    requires Validates(ctx)
  {
    if prim.PairOk? then prim.hdr.altLba else EndLba(ctx)
  }

  /** The secondary header as rebuilt from the primary one: its table ends where the header begins. */
  function RestoredSec(ctx: ImgCtx, h: Hdr): Hdr
    requires ctx.secSz > 0
  {
    RestoredHdr(h, Sub64(h.altLba, ByteToLba(ctx, h.entryCnt * h.entrySz, true)))
  }

  /** The primary header as rebuilt from the secondary one: its table follows the header. */
  function RestoredPrim(h: Hdr): Hdr {
    RestoredHdr(h, Add64(h.altLba, 1))
  }

  function Combine(ctx: ImgCtx, prim: PairLoad, sec: PairLoad): Load<GptValue>
    requires ctx.secSz > 0
  {
    match (prim, sec)
    case (PairFatal, _) => LoadFatal
    case (_, PairFatal) => LoadFatal
    case (PairOk(h, t), PairOk(k, u)) => LoadOk(GptValue(h, t, k, u))
    case (PairOk(h, t), _) => LoadOk(GptValue(h, t, RestoredSec(ctx, h), t))
    case (_, PairOk(k, u)) => LoadOk(GptValue(RestoredPrim(k), u, k, u))
    case (_, _) => LoadNotFound
  }

  function GptLoad(ctx: ImgCtx, img: seq<byte>): Load<GptValue>
    requires Validates(ctx)
  {
    var prim := LoadPair(ctx, img, PRIM_LBA);
    if prim.PairFatal? then LoadFatal
    else Combine(ctx, prim, LoadPair(ctx, img, SecLba(ctx, prim)))
  }

  //////////////////////////////////////////////////////////////////////////////
  // How loading ends
  //////////////////////////////////////////////////////////////////////////////

  /** The sector holds a header with the right signature, checksum and position. */
  predicate HdrFound(ctx: ImgCtx, img: seq<byte>, lba: nat) {
    HdrMaps(ctx, |img|, lba) && HdrValid(HdrSlice(ctx, img, lba), lba)
  }

  /** There are at most 128 entries, and the sectors and the entries of the table lie in the image. */
  predicate TableReadable(ctx: ImgCtx, len: nat, h: Hdr)
    requires ctx.secSz > 0
  {
    && h.entryCnt <= 128
    && h.tableLba * ctx.secSz + ByteToLba(ctx, h.entryCnt * h.entrySz, true) * ctx.secSz <= len
    && (h.entryCnt > 0 ==> h.tableLba * ctx.secSz + (h.entryCnt - 1) * h.entrySz + 93 <= len)
  }

  /** The sector does not lie in the image, or holds a header whose table cannot be read. */
  predicate OutOfReach(ctx: ImgCtx, img: seq<byte>, lba: nat)
    requires ctx.secSz > 0
  {
    || lba * ctx.secSz + ctx.secSz > |img| || lba * ctx.secSz + 92 > |img|
    || (HdrFound(ctx, img, lba) && !TableReadable(ctx, |img|, HdrFromBytes(HdrSlice(ctx, img, lba))))
  }

  /** The sector holds a header, and its table can be read and has the checksum that the header names. */
  predicate PairFound(ctx: ImgCtx, img: seq<byte>, lba: nat)
    requires ctx.secSz > 0
  {
    HdrFound(ctx, img, lba) && TableFound(ctx, img, HdrFromBytes(HdrSlice(ctx, img, lba)))
  }

  predicate TableFound(ctx: ImgCtx, img: seq<byte>, h: Hdr)
    requires ctx.secSz > 0
  {
    TableReadable(ctx, |img|, h) && TableCrc(LoadTable(ctx, img, h)) == h.tableCrc
  }

  /** Where the secondary header is looked for. */
  function SecondLba(ctx: ImgCtx, img: seq<byte>): int
    requires ctx.secSz > 0
  {
    if PairFound(ctx, img, 1) then HdrFromBytes(HdrSlice(ctx, img, 1)).altLba else LastLba(ctx)
  }

  lemma PairOutcome(ctx: ImgCtx, img: seq<byte>, lba: nat)
    requires ctx.secSz > 0
    ensures LoadPair(ctx, img, lba).PairFatal? <==> OutOfReach(ctx, img, lba)
    ensures LoadPair(ctx, img, lba).PairOk? <==> PairFound(ctx, img, lba)
    ensures PairFound(ctx, img, lba) ==>
              var h := HdrFromBytes(HdrSlice(ctx, img, lba));
              LoadPair(ctx, img, lba) == PairOk(h, LoadTable(ctx, img, h))
  {
    if HdrFound(ctx, img, lba) {
      TableOutcome(ctx, img, HdrFromBytes(HdrSlice(ctx, img, lba)));
    }
  }

  lemma TableOutcome(ctx: ImgCtx, img: seq<byte>, h: Hdr)
    requires ctx.secSz > 0
    ensures LoadPairTable(ctx, img, h).PairFatal? <==> !TableReadable(ctx, |img|, h)
    ensures LoadPairTable(ctx, img, h).PairOk? <==> TableFound(ctx, img, h)
    ensures TableFound(ctx, img, h) ==> LoadPairTable(ctx, img, h) == PairOk(h, LoadTable(ctx, img, h))
  {
  }

  lemma CombineOutcome(ctx: ImgCtx, prim: PairLoad, sec: PairLoad)
    requires ctx.secSz > 0
    ensures var r := Combine(ctx, prim, sec);
            && (r.LoadFatal? <==> prim.PairFatal? || sec.PairFatal?)
            && (r.LoadOk? <==> !r.LoadFatal? && (prim.PairOk? || sec.PairOk?))
            && (r.LoadOk? && prim.PairOk? ==> r.value.hdrPrim == prim.hdr && r.value.tablePrim == prim.table)
            && (r.LoadOk? && !prim.PairOk? ==> r.value.hdrSec == sec.hdr && r.value.tablePrim == sec.table)
  {
  }

  lemma LoadSteps(ctx: ImgCtx, img: seq<byte>)
    requires Validates(ctx)
    ensures SecondLba(ctx, img) >= 0
    ensures GptLoad(ctx, img) == Combine(ctx, LoadPair(ctx, img, 1), LoadPair(ctx, img, SecondLba(ctx, img)))
  {
    Layout(ctx);
    PairOutcome(ctx, img, PRIM_LBA);
  }

  /**
    Loading is fatal exactly if the header at sector 1 or the one where the
    secondary is looked for is out of reach or describes a table that is; else a
    GPT is found exactly if a whole pair is.
   */
  lemma LoadOutcome(ctx: ImgCtx, img: seq<byte>)
    requires Validates(ctx)
    ensures SecondLba(ctx, img) >= 0
    ensures GptLoad(ctx, img).LoadFatal? <==> OutOfReach(ctx, img, 1) || OutOfReach(ctx, img, SecondLba(ctx, img))
    ensures GptLoad(ctx, img).LoadOk? <==>
              !GptLoad(ctx, img).LoadFatal? && (PairFound(ctx, img, 1) || PairFound(ctx, img, SecondLba(ctx, img)))
  {
    LoadSteps(ctx, img);
    PairOutcome(ctx, img, PRIM_LBA);
    PairOutcome(ctx, img, SecondLba(ctx, img));
    CombineOutcome(ctx, LoadPair(ctx, img, PRIM_LBA), LoadPair(ctx, img, SecondLba(ctx, img)));
  }

  /** What is loaded comes from the primary pair if that is whole, and else from the secondary one. */
  lemma LoadedFrom(ctx: ImgCtx, img: seq<byte>)
    requires Validates(ctx) && GptLoad(ctx, img).LoadOk?
    ensures SecondLba(ctx, img) >= 0
    ensures var prim, g := PairFound(ctx, img, 1), GptLoad(ctx, img).value;
            && PairFound(ctx, img, if prim then 1 else SecondLba(ctx, img))
            && var h := HdrFromBytes(HdrSlice(ctx, img, if prim then 1 else SecondLba(ctx, img)));
               (if prim then g.hdrPrim == h else g.hdrSec == h) && g.tablePrim == LoadTable(ctx, img, h)
  {
    LoadOutcome(ctx, img);
    LoadSteps(ctx, img);
    PairOutcome(ctx, img, PRIM_LBA);
    PairOutcome(ctx, img, SecondLba(ctx, img));
    CombineOutcome(ctx, LoadPair(ctx, img, PRIM_LBA), LoadPair(ctx, img, SecondLba(ctx, img)));
  }

  function PartOf(e: Ent): Part {
    if e.typeGuid == ZERO_GUID then NoPart()
    else PartFields(0, e.typeGuid, e.uniqueGuid, e.startLba, e.endLba, e.attr, e.name, 0)
  }

  function EntOf(p: Part): Ent {
    if p.typeGuid == ZERO_GUID then NoEnt()
    else EntFields(p.typeGuid, p.uniqueGuid, p.startLba, p.endLba, p.attr, p.name)
  }

  function PartsOf(table: seq<Ent>): (parts: seq<Part>)
    ensures |parts| == |table|
    ensures forall i :: 0 <= i < |table| ==> parts[i] == PartOf(table[i])
  {
    if table == [] then [] else PartsOf(table[..|table| - 1]) + [PartOf(table[|table| - 1])]
  }

  function EntsOf(parts: seq<Part>): (table: seq<Ent>)
    ensures |table| == |parts|
    ensures forall i :: 0 <= i < |parts| ==> table[i] == EntOf(parts[i])
  {
    if parts == [] then [] else EntsOf(parts[..|parts| - 1]) + [EntOf(parts[|parts| - 1])]
  }

  function SchemOf(h: Hdr, table: seq<Ent>): Schem {
    Schem(Gpt, 0, h.diskGuid, h.firstUsable, h.lastUsable, PartsOf(table))
  }

  function LoadSchem(ctx: ImgCtx, img: seq<byte>): Load<Schem>
    requires Validates(ctx)
  {
    match GptLoad(ctx, img)
    case LoadOk(g) => LoadOk(SchemOf(g.hdrPrim, g.tablePrim))
    case LoadNotFound => LoadNotFound
    case LoadFatal => LoadFatal
  }

  //////////////////////////////////////////////////////////////////////////////
  // Saving
  //////////////////////////////////////////////////////////////////////////////

  /** What the program can save: at most 128 slots. */
  predicate Saveable(s: Schem) {
    s.kind == Gpt && |s.table| <= MAX_PARTS
  }

  function PrimHdrOf(s: Schem, ctx: ImgCtx): Hdr
    requires Validates(ctx) && Saveable(s)
  {
    Layout(ctx);
    var h := Hdr(GPT_REV, HDR_SZ, 0, PRIM_LBA, LastLba(ctx), s.first, s.last, s.idGuid, PRIM_TABLE_LBA,
                 |s.table|, GPT_ENTRY_SZ, TableCrc(EntsOf(s.table)));
    h.(hdrCrc := HdrCrc(h))
  }

  function SecHdrOf(s: Schem, ctx: ImgCtx): Hdr
    requires Validates(ctx) && Saveable(s)
  {
    Layout(ctx);
    RestoredHdr(PrimHdrOf(s, ctx), SecTableLba(ctx))
  }

  function GptFromSchem(s: Schem, ctx: ImgCtx): GptValue
    requires Validates(ctx) && Saveable(s)
  {
    GptValue(PrimHdrOf(s, ctx), EntsOf(s.table), SecHdrOf(s, ctx), EntsOf(s.table))
  }

  /** One region write. */
  datatype Region = HdrRegion(hdr: Hdr) | TableRegion(lba: nat, table: seq<Ent>, sz: nat)

  predicate RegionFits(ctx: ImgCtx, len: nat, r: Region) {
    match r
    case HdrRegion(h) => HdrMaps(ctx, len, h.myLba)
    case TableRegion(lba, table, sz) => TableFits(len, LbaToByte(ctx, lba), |table|, sz)
  }

  function WriteRegion(ctx: ImgCtx, img: seq<byte>, r: Region): (t: seq<byte>)
    requires RegionFits(ctx, |img|, r)
    ensures |t| == |img|
  {
    match r
    case HdrRegion(h) => Splice(img, LbaToByte(ctx, h.myLba), HdrBytes(h))
    case TableRegion(lba, table, sz) => TableSplice(img, LbaToByte(ctx, lba), table, sz)
  }

  /** The region writes of a save in order: the secondary pair first, and in each pair the header. */
  function SaveRegion(g: GptValue, k: nat): Region
    requires k < 4
  {
    if k == 0 then HdrRegion(g.hdrSec)
    else if k == 1 then TableRegion(g.hdrSec.tableLba, g.tableSec, g.hdrSec.entrySz)
    else if k == 2 then HdrRegion(g.hdrPrim)
    else TableRegion(g.hdrPrim.tableLba, g.tablePrim, g.hdrPrim.entrySz)
  }

  ghost predicate AllFit(ctx: ImgCtx, len: nat, g: GptValue) {
    forall k :: 0 <= k < 4 ==> RegionFits(ctx, len, SaveRegion(g, k))
  }

  function WritePair(ctx: ImgCtx, img: seq<byte>, a: Region, b: Region): (t: seq<byte>)
    requires RegionFits(ctx, |img|, a) && RegionFits(ctx, |img|, b)
    ensures |t| == |img|
  {
    WriteRegion(ctx, WriteRegion(ctx, img, a), b)
  }

  /** The image after all four region writes. */
  ghost function SaveAll(ctx: ImgCtx, img: seq<byte>, g: GptValue): (t: seq<byte>)
    requires AllFit(ctx, |img|, g)
    ensures |t| == |img|
  {
    assert RegionFits(ctx, |img|, SaveRegion(g, 0)) && RegionFits(ctx, |img|, SaveRegion(g, 1));
    assert RegionFits(ctx, |img|, SaveRegion(g, 2)) && RegionFits(ctx, |img|, SaveRegion(g, 3));
    WritePair(ctx, WritePair(ctx, img, SaveRegion(g, 0), SaveRegion(g, 1)), SaveRegion(g, 2), SaveRegion(g, 3))
  }

  /** The fields of the headers that place the regions. */
  lemma HdrsOf(s: Schem, ctx: ImgCtx)
    requires Validates(ctx) && Saveable(s)
    ensures var p, q := PrimHdrOf(s, ctx), SecHdrOf(s, ctx);
            && p.myLba == q.altLba == PRIM_LBA && p.altLba == q.myLba == LastLba(ctx)
            && p.tableLba == PRIM_TABLE_LBA && q.tableLba == SecTableLba(ctx)
            && p.entryCnt == q.entryCnt == |s.table| && p.entrySz == q.entrySz == GPT_ENTRY_SZ
            && p.tableCrc == q.tableCrc == TableCrc(EntsOf(s.table))
            && p.diskGuid == q.diskGuid == s.idGuid
            && p.firstUsable == q.firstUsable == s.first && p.lastUsable == q.lastUsable == s.last
            && p.hdrCrc == HdrCrc(p) && q.hdrCrc == HdrCrc(q)
  {
  }

  /** A table of at most 128 entries takes at most 128 * 128 bytes. */
  lemma TableFitsMax(len: nat, p: nat, n: nat)
    requires n <= MAX_PARTS && p + 128 * MAX_PARTS <= len
    ensures TableFits(len, p, n, GPT_ENTRY_SZ)
  {
  }

  lemma SaveRegionFits(s: Schem, ctx: ImgCtx, len: nat, k: nat)
    requires Validates(ctx) && Saveable(s) && len == ctx.imgSz && k < 4
    ensures RegionFits(ctx, len, SaveRegion(GptFromSchem(s, ctx), k))
  {
    Layout(ctx);
    HdrsOf(s, ctx);
    RegionFitsAt(ctx, len, GptFromSchem(s, ctx), k);
  }

  lemma RegionFitsAt(ctx: ImgCtx, len: nat, g: GptValue, k: nat)
    requires Validates(ctx) && len == ctx.imgSz && k < 4
    requires g.hdrPrim.myLba == PRIM_LBA && g.hdrSec.myLba == LastLba(ctx)
    requires g.hdrPrim.tableLba == PRIM_TABLE_LBA && g.hdrSec.tableLba == SecTableLba(ctx)
    requires g.hdrPrim.entrySz == g.hdrSec.entrySz == GPT_ENTRY_SZ
    requires |g.tablePrim| <= MAX_PARTS && |g.tableSec| <= MAX_PARTS
    ensures RegionFits(ctx, len, SaveRegion(g, k))
  {
    Layout(ctx);
    TableFitsMax(len, LbaToByte(ctx, PRIM_TABLE_LBA), |g.tablePrim|);
    TableFitsMax(len, LbaToByte(ctx, SecTableLba(ctx)), |g.tableSec|);
  }

  /** The image after the first "k" region writes of saving "s". */
  function CutSave(ctx: ImgCtx, img: seq<byte>, s: Schem, k: nat): (t: seq<byte>)
    requires Validates(ctx) && Saveable(s) && |img| == ctx.imgSz && k <= 4
    ensures |t| == |img|
  {
    if k == 0 then img
    else
      SaveRegionFits(s, ctx, |img|, k - 1);
      WriteRegion(ctx, CutSave(ctx, img, s, k - 1), SaveRegion(GptFromSchem(s, ctx), k - 1))
  }

  function Save(ctx: ImgCtx, img: seq<byte>, s: Schem): (t: seq<byte>)
    requires Validates(ctx) && Saveable(s) && |img| == ctx.imgSz
    ensures |t| == |img|
  {
    CutSave(ctx, img, s, 4)
  }
}
