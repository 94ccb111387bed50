/** Loading, saving, restoring and removing a GPT on an image (libs/libpartman/src/gpt.c:318-326, 386-971). */
module GptProgram {
  import opened Words
  import opened Crc32
  import opened Guids
  import opened ImgCtxs
  import opened GptFormat
  import opened GptStore
  import opened GptCodec

  datatype PairRes = ResOk | ResHdrInv | ResTableInv | ResFatal

  datatype LoadRes = Loaded | NotFound | Fatal

  //////////////////////////////////////////////////////////////////////////////
  // Pairs
  //////////////////////////////////////////////////////////////////////////////

  method PairSave(ctx: ImgCtx, img: array<byte>, h: Hdr, table: array<Ent>)
    requires h.entryCnt <= table.Length && h.entryCnt <= MAX_PARTS
    requires RegionFits(ctx, img.Length, HdrRegion(h))
    requires RegionFits(ctx, img.Length, TableRegion(h.tableLba, table[..h.entryCnt], h.entrySz))
    modifies img
    ensures img[..] == WritePair(ctx, old(img[..]), HdrRegion(h),
                                 TableRegion(h.tableLba, table[..h.entryCnt], h.entrySz))
  {
    HdrWrite(img, LbaToByte(ctx, h.myLba), h);
    TableWrite(img, LbaToByte(ctx, h.tableLba), table, h.entryCnt, h.entrySz);
  }

  /** The signature is there. */
  method IsPresent(img: array<byte>, p: nat) returns (r: bool)
    requires p + 8 <= img.Length
    ensures r <==> img[p..p + 8] == GPT_SIG
  {
    for i := 0 to 8
      invariant forall j :: 0 <= j < i ==> img[p + j] == GPT_SIG[j]
    {
      if img[p + i] != GPT_SIG[i] {
        assert img[p..p + 8][i] != GPT_SIG[i];
        return false;
      }
    }
    return true;
  }

  ghost predicate PairResult(r: PairRes, h: Hdr, table: seq<Ent>, spec: PairLoad) {
    match spec
    case PairOk(k, u) =>
      r == ResOk && h == k && h.entryCnt <= MAX_PARTS && |table| == MAX_PARTS && table[..h.entryCnt] == u
    case PairHdrInv => r == ResHdrInv
    case PairTableInv => r == ResTableInv
    case PairFatal => r == ResFatal
  }

  method HdrLoad(t: Table, ctx: ImgCtx, img: array<byte>, lba: nat) returns (ok: bool, h: Hdr)
    requires t.Valid() && HdrMaps(ctx, img.Length, lba)
    modifies t.entries
    ensures t.Valid()
    ensures ok <==> HdrValid(HdrSlice(ctx, img[..], lba), lba)
    ensures ok ==> h == HdrFromBytes(HdrSlice(ctx, img[..], lba))
  {
    var p := LbaToByte(ctx, lba);
    ghost var s := HdrSlice(ctx, img[..], lba);
    assert img[p..p + HDR_SZ] == s;
    ok := IsPresent(img, p);
    assert s[..8] == img[p..p + 8];
    h := ZeroHdr();
    if ok {
      h := HdrRead(img, p);
      var crc := HdrCrcCreate(t, h);
      ok := h.hdrCrc == crc && h.myLba == lba;
    }
  }

  method TableLoad(t: Table, ctx: ImgCtx, img: array<byte>, h: Hdr, table: array<Ent>) returns (r: PairRes)
    requires t.Valid() && ctx.secSz > 0 && table.Length == MAX_PARTS
    modifies t.entries, table
    ensures t.Valid() && PairResult(r, h, table[..], LoadPairTable(ctx, img[..], h))
  {
    if h.entryCnt > MAX_PARTS {
      return ResFatal;
    }
    if !TableMaps(ctx, img.Length, h.tableLba, h.entryCnt, h.entrySz) {
      return ResFatal;
    }
    TableRead(img, LbaToByte(ctx, h.tableLba), table, h.entryCnt, h.entrySz);
    var crc := TableCrcCreate(t, table, h.entryCnt);
    assert table[..][..h.entryCnt] == table[..h.entryCnt];
    r := if crc == h.tableCrc then ResOk else ResTableInv;
  }

  method PairLoadAt(t: Table, ctx: ImgCtx, img: array<byte>, lba: nat, table: array<Ent>, ghost s: seq<byte>)
    returns (r: PairRes, h: Hdr, ghost spec: PairLoad)
    requires t.Valid() && ctx.secSz > 0 && table.Length == MAX_PARTS && s == img[..]
    modifies t.entries, table
    ensures t.Valid() && spec == LoadPair(ctx, s, lba) && PairResult(r, h, table[..], spec)
  {
    spec := LoadPair(ctx, s, lba);
    h := ZeroHdr();
    if !HdrMaps(ctx, img.Length, lba) {
      r := ResFatal;
      return;
    }
    var ok;
    ok, h := HdrLoad(t, ctx, img, lba);
    if !ok {
      r := ResHdrInv;
      return;
    }
    r := TableLoad(t, ctx, img, h, table);
  }

  function ZeroHdr(): Hdr {
    Hdr(0, 0, 0, 0, 0, 0, 0, ZERO_GUID, 0, 0, 0, 0)
  }

  //////////////////////////////////////////////////////////////////////////////
  // Both pairs
  //////////////////////////////////////////////////////////////////////////////

  /** Both headers with both tables of 128 entries. */
  class GptBuf {
    var hdrPrim: Hdr
    var hdrSec: Hdr
    const tablePrim: array<Ent>
    const tableSec: array<Ent>

    ghost predicate Valid()
    {
      tablePrim != tableSec && tablePrim.Length == MAX_PARTS && tableSec.Length == MAX_PARTS
    }

    /** The value of the counted entries. */
    ghost function Value(): GptValue
      requires Valid() && hdrPrim.entryCnt <= MAX_PARTS && hdrSec.entryCnt <= MAX_PARTS
      reads this, tablePrim, tableSec
    {
      GptValue(hdrPrim, tablePrim[..hdrPrim.entryCnt], hdrSec, tableSec[..hdrSec.entryCnt])
    }

    /** What loading reports and leaves behind. */
    ghost predicate LoadResult(r: LoadRes, spec: Load<GptValue>)
      requires Valid()
      reads this, tablePrim, tableSec
    {
      match spec
      case LoadOk(g) => r == Loaded && hdrPrim.entryCnt <= MAX_PARTS && hdrSec.entryCnt <= MAX_PARTS && g == Value()
      case LoadNotFound => r == NotFound
      case LoadFatal => r == Fatal
    }

    constructor ()
      ensures Valid() && fresh(tablePrim) && fresh(tableSec)
      ensures hdrPrim == hdrSec == ZeroHdr()
      ensures forall i :: 0 <= i < MAX_PARTS ==> tablePrim[i] == NoEnt()
    {
      hdrPrim, hdrSec := ZeroHdr(), ZeroHdr();
      tablePrim := new Ent[MAX_PARTS](_ => NoEnt());
      tableSec := new Ent[MAX_PARTS](_ => NoEnt());
    }

    method CopyTable(src: array<Ent>, dst: array<Ent>, n: nat)
      requires src != dst && n <= src.Length && n <= dst.Length
      modifies dst
      ensures dst[..n] == old(src[..n])
    {
      for i := 0 to n
        invariant forall j :: 0 <= j < i ==> dst[j] == src[j]
      {
        dst[i] := src[i];
      }
    }

    /** Rebuilds one pair from the other. */
    method Restore(t: Table, tableLba: u64, primary: bool)
      requires Valid() && t.Valid()
      requires (if primary then hdrSec else hdrPrim).entryCnt <= MAX_PARTS
      modifies this, tablePrim, tableSec, t.entries
      ensures Valid() && t.Valid()
      ensures primary ==>
                && hdrSec == old(hdrSec) && tableSec[..] == old(tableSec[..])
                && hdrPrim == RestoredHdr(hdrSec, tableLba)
                && tablePrim[..hdrSec.entryCnt] == tableSec[..hdrSec.entryCnt]
      ensures !primary ==>
                && hdrPrim == old(hdrPrim) && tablePrim[..] == old(tablePrim[..])
                && hdrSec == RestoredHdr(hdrPrim, tableLba)
                && tableSec[..hdrPrim.entryCnt] == tablePrim[..hdrPrim.entryCnt]
    {
      var src := if primary then hdrSec else hdrPrim;
      var dst := src.(myLba := src.altLba, altLba := src.myLba, tableLba := tableLba);
      if primary {
        CopyTable(tableSec, tablePrim, src.entryCnt);
      } else {
        CopyTable(tablePrim, tableSec, src.entryCnt);
      }
      var crc := HdrCrcCreate(t, dst);
      dst := dst.(hdrCrc := crc);
      if primary {
        hdrPrim := dst;
      } else {
        hdrSec := dst;
      }
    }

    /** The secondary pair first. */
    method Save(ctx: ImgCtx, img: array<byte>, ghost g: GptValue)
      requires Valid() && hdrPrim.entryCnt <= MAX_PARTS && hdrSec.entryCnt <= MAX_PARTS
      requires g == Value() && AllFit(ctx, img.Length, g)
      modifies img
      ensures img[..] == SaveAll(ctx, old(img[..]), g)
    {
      assert RegionFits(ctx, img.Length, SaveRegion(g, 0)) && RegionFits(ctx, img.Length, SaveRegion(g, 1));
      assert RegionFits(ctx, img.Length, SaveRegion(g, 2)) && RegionFits(ctx, img.Length, SaveRegion(g, 3));
      PairSave(ctx, img, hdrSec, tableSec);
      PairSave(ctx, img, hdrPrim, tablePrim);
    }

    /** Decides by what became of the two pairs, and rebuilds the one that is lost. */
    method Settle(t: Table, ctx: ImgCtx, prim: PairRes, sec: PairRes, ghost p: PairLoad, ghost s: PairLoad)
      returns (r: LoadRes)
      requires Valid() && t.Valid() && ctx.secSz > 0
      requires PairResult(prim, hdrPrim, tablePrim[..], p) && PairResult(sec, hdrSec, tableSec[..], s)
      requires prim != ResFatal && sec != ResFatal
      modifies this, tablePrim, tableSec, t.entries
      ensures t.Valid()
      ensures LoadResult(r, Combine(ctx, p, s))
    {
      if prim != ResOk && sec != ResOk {
        return NotFound;
      }
      if prim == ResOk && sec != ResOk {
        var lba := Sub64(hdrPrim.altLba, ByteToLba(ctx, hdrPrim.entryCnt * hdrPrim.entrySz, true));
        Restore(t, lba, false);
        assert Value() == GptValue(p.hdr, p.table, RestoredSec(ctx, p.hdr), p.table);
      } else if prim != ResOk && sec == ResOk {
        var lba := Add64(hdrSec.altLba, 1);
        Restore(t, lba, true);
        assert Value() == GptValue(RestoredPrim(s.hdr), s.table, s.hdr, s.table);
      }
      return Loaded;
    }

    method Load(t: Table, ctx: ImgCtx, img: array<byte>) returns (r: LoadRes)
      requires Valid() && t.Valid() && Validates(ctx)
      modifies this, tablePrim, tableSec, t.entries
      ensures t.Valid()
      ensures LoadResult(r, GptLoad(ctx, img[..]))
    {
      ghost var s := img[..];
      ghost var p;
      var prim, sec;
      prim, hdrPrim, p := PairLoadAt(t, ctx, img, PRIM_LBA, tablePrim, s);
      if prim == ResFatal {
        return Fatal;
      }
      Layout(ctx);
      var secLba: nat := if prim == ResOk then hdrPrim.altLba else LastLba(ctx);
      ghost var q;
      sec, hdrSec, q := PairLoadAt(t, ctx, img, secLba, tableSec, s);
      if sec == ResFatal {
        return Fatal;
      }
      r := Settle(t, ctx, prim, sec, p, q);
    }
  }
}
