/**
  Damage to a saved GPT: which damaged bytes the loader rejects, and that no
  single damaged byte changes what an image loads as
  (libs/libpartman/src/gpt.c:186-256, 277-316, 418-439, 513-607).
 */
module GptDamage {
  import opened Words
  import opened Memutils
  import opened Crc32
  import opened ImgCtxs
  import opened Schemes
  import opened GptFormat
  import opened GptTable
  import opened GptStore
  import opened GptRecovery
  import opened GptTheorems

  //////////////////////////////////////////////////////////////////////////////
  // Headers
  //////////////////////////////////////////////////////////////////////////////

  /** "t" differs from "s" inside the four bytes from "lo" on, and not in bytes 16..23 of a header. */
  ghost predicate HdrBurst(s: seq<byte>, t: seq<byte>, lo: nat)
    requires |s| == |t| == HDR_SZ
  {
    s != t && forall i :: 0 <= i < HDR_SZ && s[i] != t[i] ==> lo <= i < lo + 4 && (i < 16 || i >= 24)
  }

  function CrcInput(s: seq<byte>): seq<byte>
    requires |s| == HDR_SZ
  {
    s[..16] + Zeros(8) + s[24..]
  }

  lemma CrcInputAt(s: seq<byte>, i: nat)
    requires |s| == HDR_SZ && i < HDR_SZ
    ensures |CrcInput(s)| == HDR_SZ
    ensures CrcInput(s)[i] == if 16 <= i < 24 then 0 else s[i]
  {
  }

  /** A burst of at most four bytes in a valid header is rejected. */
  lemma HdrBurstRejected(s: seq<byte>, t: seq<byte>, lo: nat, lba: nat)
    requires |s| == |t| == HDR_SZ && HdrValid(s, lba) && HdrBurst(s, t, lo)
    ensures !HdrValid(t, lba)
  {
    if t[..8] == GPT_SIG {
      HdrCrcOfBytes(s);
      HdrCrcOfBytes(t);
      BurstInInput(s, t, lo);
      BurstDetected(CrcInput(s), CrcInput(t), lo);
      assert t[16..20] == s[16..20];
    }
  }

  lemma BurstInInput(s: seq<byte>, t: seq<byte>, lo: nat)
    requires |s| == |t| == HDR_SZ && HdrBurst(s, t, lo)
    ensures |CrcInput(s)| == |CrcInput(t)| && CrcInput(s) != CrcInput(t)
    ensures forall i :: 0 <= i < |CrcInput(s)| && !(lo <= i < lo + 4) ==> CrcInput(s)[i] == CrcInput(t)[i]
  {
    forall i | 0 <= i < HDR_SZ
      ensures CrcInput(s)[i] == if 16 <= i < 24 then 0 else s[i]
      ensures CrcInput(t)[i] == if 16 <= i < 24 then 0 else t[i]
    {
      CrcInputAt(s, i);
      CrcInputAt(t, i);
    }
    var i :| 0 <= i < HDR_SZ && s[i] != t[i];
    assert CrcInput(s)[i] != CrcInput(t)[i];
  }

  /** One damaged byte of a valid header is rejected, unless it is in the reserved word. */
  lemma HdrByteRejected(s: seq<byte>, x: nat, v: byte, lba: nat)
    requires |s| == HDR_SZ && HdrValid(s, lba) && x < HDR_SZ && v != s[x] && !(20 <= x < 24)
    ensures !HdrValid(s[x := v], lba)
  {
    var t := s[x := v];
    if 16 <= x < 20 {
      HdrCrcOfBytes(s);
      assert t[..8] == s[..8];
      HdrCrcOfBytes(t);
      assert CrcInput(t) == CrcInput(s);
      assert s[16..20] != t[16..20] by {
        assert s[16..20][x - 16] != t[16..20][x - 16];
      }
      WriteRead(s[16..20]);
      WriteRead(t[16..20]);
    } else {
      HdrBurstRejected(s, t, x, lba);
    }
  }

  /** Equal but for the reserved word. */
  ghost predicate HdrAlike(s: seq<byte>, t: seq<byte>) {
    |s| == |t| == HDR_SZ && forall i :: 0 <= i < HDR_SZ && !(20 <= i < 24) ==> s[i] == t[i]
  }

  /** The reserved word is not read at all. */
  lemma ReservedIgnored(s: seq<byte>, t: seq<byte>)
    requires HdrAlike(s, t)
    ensures HdrFromBytes(t) == HdrFromBytes(s) && t[..8] == s[..8]
  {
    SameSlice(s, t, 8, 12);
    SameSlice(s, t, 12, 16);
    SameSlice(s, t, 16, 20);
    ReservedRest(s, t);
  }

  lemma AlikeValid(s: seq<byte>, t: seq<byte>, lba: nat)
    requires HdrAlike(s, t)
    ensures HdrValid(t, lba) == HdrValid(s, lba) && HdrFromBytes(t) == HdrFromBytes(s)
  {
    ReservedIgnored(s, t);
    HdrValidSame(s, t, lba);
  }

  lemma HdrValidSame(s: seq<byte>, t: seq<byte>, lba: nat)
    requires |s| == |t| == HDR_SZ && HdrFromBytes(s) == HdrFromBytes(t) && s[..8] == t[..8]
    ensures HdrValid(s, lba) == HdrValid(t, lba)
  {
  }

  lemma ReservedRest(s: seq<byte>, t: seq<byte>)
    requires |s| == |t| == HDR_SZ && forall i :: 24 <= i < HDR_SZ ==> s[i] == t[i]
    ensures U64At(s, 24) == U64At(t, 24) && U64At(s, 32) == U64At(t, 32)
    ensures U64At(s, 40) == U64At(t, 40) && U64At(s, 48) == U64At(t, 48)
    ensures s[56..72] == t[56..72] && U64At(s, 72) == U64At(t, 72)
    ensures U32At(s, 80) == U32At(t, 80) && U32At(s, 84) == U32At(t, 84) && U32At(s, 88) == U32At(t, 88)
  {
    SameSlice(s, t, 24, 32);
    SameSlice(s, t, 32, 40);
    SameSlice(s, t, 40, 48);
    SameSlice(s, t, 48, 56);
    SameSlice(s, t, 56, 72);
    SameSlice(s, t, 72, 80);
    SameSlice(s, t, 80, 84);
    SameSlice(s, t, 84, 88);
    SameSlice(s, t, 88, 92);
  }

  //////////////////////////////////////////////////////////////////////////////
  // Tables
  //////////////////////////////////////////////////////////////////////////////

  /** Where the checksum stream of an entry may change when stored byte "x" does. */
  function StreamStart(x: nat): nat {
    if x <= 56 then x else 55 + 2 * (x - 56)
  }

  /** A damaged byte shows in the stream, within four bytes. */
  lemma StreamChanges(s: seq<byte>, t: seq<byte>, x: nat)
    requires |s| == |t| == ENT_SZ && x < ENT_SZ && s[x] != t[x]
    requires forall i :: 0 <= i < ENT_SZ && i != x ==> s[i] == t[i]
    ensures EntStream(EntFromBytes(s)) != EntStream(EntFromBytes(t))
    ensures forall j :: 0 <= j < 128 && !(StreamStart(x) <= j < StreamStart(x) + 4)
                        ==> EntStream(EntFromBytes(s))[j] == EntStream(EntFromBytes(t))[j]
  {
    var u, v := EntStream(EntFromBytes(s)), EntStream(EntFromBytes(t));
    forall j | 0 <= j < 128
      ensures Source(j) < ENT_SZ && u[j] == s[Source(j)] && v[j] == t[Source(j)]
    {
      StreamOfBytes(s, j);
      StreamOfBytes(t, j);
    }
    var j := if x <= 56 then x else 55 + 2 * (x - 56);
    assert Source(j) == x;
    assert u[j] != v[j];
  }

  /** Two tables that differ in a burst of one entry's stream have different checksums. */
  lemma TableBurst(s: seq<Ent>, t: seq<Ent>, i: nat, lo: nat)
    requires |s| == |t| && i < |s| && forall k :: 0 <= k < |s| && k != i ==> s[k] == t[k]
    requires EntStream(s[i]) != EntStream(t[i])
    requires forall j :: 0 <= j < 128 && !(lo <= j < lo + 4) ==> EntStream(s[i])[j] == EntStream(t[i])[j]
    ensures TableCrc(s) != TableCrc(t)
  {
    var u, v := TableStream(s), TableStream(t);
    forall x | 0 <= x < |u| && !(128 * i + lo <= x < 128 * i + lo + 4)
      ensures u[x] == v[x]
    {
      TableStreamAt(s, x / 128, x % 128);
      TableStreamAt(t, x / 128, x % 128);
    }
    var j :| 0 <= j < 128 && EntStream(s[i])[j] != EntStream(t[i])[j];
    TableStreamAt(s, i, j);
    TableStreamAt(t, i, j);
    BurstDetected(u, v, 128 * i + lo);
  }

  //////////////////////////////////////////////////////////////////////////////
  // Pairs, by byte position
  //////////////////////////////////////////////////////////////////////////////

  /** A header at byte "o" and its table at byte "p", apart from each other. */
  ghost predicate RawPair(img: seq<byte>, o: nat, p: nat, table: seq<Ent>) {
    && o + HDR_SZ <= |img| && TableFits(|img|, p, |table|, 128)
    && EntriesAt(img, p, table) && AllChained(table)
    && (o + HDR_SZ <= p || p + 128 * |table| <= o)
  }

  ghost predicate KeepsHdr(img: seq<byte>, t: seq<byte>, o: nat) {
    o + HDR_SZ <= |img| == |t| && HdrAlike(img[o..o + HDR_SZ], t[o..o + HDR_SZ])
  }

  ghost predicate ReadsTable(t: seq<byte>, p: nat, table: seq<Ent>) {
    TableFits(|t|, p, |table|, 128) && TableFromBytes(t, p, |table|, 128) == table
  }

  ghost predicate RejectsTable(t: seq<byte>, p: nat, table: seq<Ent>) {
    TableFits(|t|, p, |table|, 128) && TableCrc(TableFromBytes(t, p, |table|, 128)) != TableCrc(table)
  }

  /** "t" is "img" with the byte at "y" changed. */
  ghost predicate OneByte(img: seq<byte>, t: seq<byte>, y: nat) {
    |t| == |img| && y < |img| && t[y] != img[y] && forall z :: 0 <= z < |img| && z != y ==> t[z] == img[z]
  }

  lemma SliceDamaged(img: seq<byte>, t: seq<byte>, o: nat, n: nat, x: nat)
    requires x < n && o + n <= |img| && OneByte(img, t, o + x)
    ensures t[o..o + n] == img[o..o + n][x := t[o + x]]
    ensures img[o..o + n][x] == img[o + x]
  {
  }

  /** Byte "x" of the header is damaged. */
  lemma RawHdrDamaged(img: seq<byte>, t: seq<byte>, o: nat, p: nat, table: seq<Ent>, x: nat)
    requires RawPair(img, o, p, table) && x < HDR_SZ && OneByte(img, t, o + x)
    ensures 20 <= x < 24 ==> KeepsHdr(img, t, o)
    ensures t[o..o + HDR_SZ] == img[o..o + HDR_SZ][x := t[o + x]]
    ensures img[o..o + HDR_SZ][x] != t[o + x]
    ensures ReadsTable(t, p, table)
  {
    var y := o + x;
    SliceDamaged(img, t, o, HDR_SZ, x);
    assert forall k :: 0 <= k < |table| ==> !Inside(y, p, k);
    RawTableUntouched(img, t, p, table, y);
  }

  /** The byte at "y" is one that is read from entry "k". */
  predicate Inside(y: nat, p: nat, k: int) {
    p + k * 128 <= y < p + k * 128 + ENT_SZ
  }

  /** Damage outside the read bytes of the entries. */
  lemma RawTableUntouched(img: seq<byte>, t: seq<byte>, p: nat, table: seq<Ent>, y: nat)
    requires TableFits(|img|, p, |table|, 128) && EntriesAt(img, p, table) && AllChained(table)
    requires OneByte(img, t, y)
    requires forall k :: 0 <= k < |table| ==> !Inside(y, p, k)
    ensures ReadsTable(t, p, table)
  {
    forall k | 0 <= k < |table|
      ensures EntryIs(t, p + k * 128, table[k])
    {
      assert !Inside(y, p, k);
      assert EntryIs(img, p + k * 128, table[k]);
      SameSlice(img, t, p + k * 128, p + k * 128 + ENT_SZ);
    }
    EntriesRead(t, p, table);
  }

  /** Byte "x" of entry "i" is damaged: only 93 bytes of every 128 are looked at. */
  lemma RawEntDamaged(img: seq<byte>, t: seq<byte>, o: nat, p: nat, table: seq<Ent>, i: nat, x: nat)
    requires RawPair(img, o, p, table) && i < |table| && x < 128 && OneByte(img, t, p + i * 128 + x)
    ensures KeepsHdr(img, t, o)
    ensures if x < ENT_SZ then RejectsTable(t, p, table) else ReadsTable(t, p, table)
  {
    RawHdrUntouched(img, t, o, p + i * 128 + x);
    if x < ENT_SZ {
      RawTableChanged(img, t, p, table, i, x);
    } else {
      RawTableUntouched(img, t, p, table, p + i * 128 + x);
    }
  }

  lemma RawHdrUntouched(img: seq<byte>, t: seq<byte>, o: nat, y: nat)
    requires o + HDR_SZ <= |img| && OneByte(img, t, y) && !(o <= y < o + HDR_SZ)
    ensures KeepsHdr(img, t, o)
  {
    SameSlice(img, t, o, o + HDR_SZ);
  }

  /** A damaged read byte changes the checksum of the table that is read. */
  lemma RawTableChanged(img: seq<byte>, t: seq<byte>, p: nat, table: seq<Ent>, i: nat, x: nat)
    requires TableFits(|img|, p, |table|, 128) && EntriesAt(img, p, table) && AllChained(table)
    requires i < |table| && x < ENT_SZ && OneByte(img, t, p + i * 128 + x)
    ensures RejectsTable(t, p, table)
  {
    var read := TableFromBytes(t, p, |table|, 128);
    OthersRead(img, t, p, table, i, x, read);
    assert EntryIs(img, p + i * 128, table[i]);
    EntryChanged(img, t, p + i * 128, table[i], x);
    assert EntryAt(t, p, |table|, 128, i) == t[p + i * 128..p + i * 128 + ENT_SZ];
    TableBurst(table, read, i, StreamStart(x));
  }

  lemma OthersRead(img: seq<byte>, t: seq<byte>, p: nat, table: seq<Ent>, i: nat, x: nat, read: seq<Ent>)
    requires TableFits(|img|, p, |table|, 128) && EntriesAt(img, p, table) && AllChained(table)
    requires i < |table| && x < ENT_SZ && OneByte(img, t, p + i * 128 + x)
    requires read == TableFromBytes(t, p, |table|, 128)
    ensures forall k :: 0 <= k < |table| && k != i ==> table[k] == read[k]
  {
    forall k | 0 <= k < |table| && k != i
      ensures table[k] == read[k]
    {
      EntryRead(img, t, p, table, k);
    }
  }

  lemma EntryRead(img: seq<byte>, t: seq<byte>, p: nat, table: seq<Ent>, k: nat)
    requires TableFits(|img|, p, |table|, 128) && EntriesAt(img, p, table) && AllChained(table)
    requires |t| == |img| && k < |table|
    requires forall z :: 0 <= z < |img| && p + k * 128 <= z < p + k * 128 + ENT_SZ ==> t[z] == img[z]
    ensures EntFromBytes(EntryAt(t, p, |table|, 128, k)) == table[k]
  {
    assert EntryIs(img, p + k * 128, table[k]);
    SameSlice(img, t, p + k * 128, p + k * 128 + ENT_SZ);
    EntReadWriteIff(table[k]);
  }

  lemma EntryChanged(img: seq<byte>, t: seq<byte>, q: nat, e: Ent, x: nat)
    requires EntryIs(img, q, e) && Chained(e.name) && x < ENT_SZ && OneByte(img, t, q + x)
    ensures var f := EntFromBytes(t[q..q + ENT_SZ]);
            && EntStream(e) != EntStream(f)
            && forall j :: 0 <= j < 128 && !(StreamStart(x) <= j < StreamStart(x) + 4)
                           ==> EntStream(e)[j] == EntStream(f)[j]
  {
    EntReadWriteIff(e);
    SliceDamaged(img, t, q, ENT_SZ, x);
    StreamChanges(img[q..q + ENT_SZ], t[q..q + ENT_SZ], x);
  }

  lemma SplitOffset(y: nat, p: nat, n: nat) returns (i: nat, x: nat)
    requires p <= y < p + 128 * n
    ensures i < n && x < 128 && y == p + i * 128 + x
  {
    i, x := (y - p) / 128, (y - p) % 128;
  }

  /** One damaged byte outside the header: the table is read as it was, or rejected. */
  lemma RawDamaged(img: seq<byte>, t: seq<byte>, o: nat, p: nat, table: seq<Ent>, y: nat)
    requires RawPair(img, o, p, table) && OneByte(img, t, y) && !(o <= y < o + HDR_SZ)
    ensures KeepsHdr(img, t, o) && (RejectsTable(t, p, table) || ReadsTable(t, p, table))
  {
    if p <= y < p + 128 * |table| {
      var i, x := SplitOffset(y, p, |table|);
      RawEntDamaged(img, t, o, p, table, i, x);
    } else {
      RawHdrUntouched(img, t, o, y);
      assert forall k :: 0 <= k < |table| ==> !Inside(y, p, k);
      RawTableUntouched(img, t, p, table, y);
    }
  }

  //////////////////////////////////////////////////////////////////////////////
  // Pairs, as they are loaded
  //////////////////////////////////////////////////////////////////////////////

  /** A matching pair in place, its header and table apart. */
  ghost predicate PairIn(ctx: ImgCtx, img: seq<byte>, h: Hdr, table: seq<Ent>)
    requires ctx.secSz > 0
  {
    && HdrAt(ctx, img, h) && Matching(ctx, |img|, h, table)
    && RawPair(img, LbaToByte(ctx, h.myLba), LbaToByte(ctx, h.tableLba), table)
  }

  /** A header that is kept reads as before; then the table decides. */
  lemma LoadKept(ctx: ImgCtx, img: seq<byte>, t: seq<byte>, h: Hdr, table: seq<Ent>)
    requires ctx.secSz > 0 && PairIn(ctx, img, h, table) && KeepsHdr(img, t, LbaToByte(ctx, h.myLba))
    ensures LoadPair(ctx, t, h.myLba) == LoadPairTable(ctx, t, h)
  {
    HdrBytesValid(h);
    AlikeValid(HdrSlice(ctx, img, h.myLba), HdrSlice(ctx, t, h.myLba), h.myLba);
  }

  lemma LoadTableBy(ctx: ImgCtx, t: seq<byte>, p: nat, h: Hdr, table: seq<Ent>)
    requires ctx.secSz > 0 && Matching(ctx, |t|, h, table) && p == LbaToByte(ctx, h.tableLba)
    ensures RejectsTable(t, p, table) ==> LoadPairTable(ctx, t, h) == PairTableInv
    ensures ReadsTable(t, p, table) ==> LoadPairTable(ctx, t, h) == PairOk(h, table)
  {
  }

  /** What becomes of a pair when byte "x" of its header is damaged. */
  lemma HdrByteDamaged(ctx: ImgCtx, img: seq<byte>, t: seq<byte>, h: Hdr, table: seq<Ent>, x: nat)
    requires ctx.secSz > 0 && PairIn(ctx, img, h, table) && x < HDR_SZ
    requires OneByte(img, t, LbaToByte(ctx, h.myLba) + x)
    ensures 20 <= x < 24 ==> LoadPair(ctx, t, h.myLba) == PairOk(h, table)
    ensures !(20 <= x < 24) ==> LoadPair(ctx, t, h.myLba) == PairHdrInv
  {
    var o, p := LbaToByte(ctx, h.myLba), LbaToByte(ctx, h.tableLba);
    RawHdrDamaged(img, t, o, p, table, x);
    if 20 <= x < 24 {
      LoadKept(ctx, img, t, h, table);
      LoadTableBy(ctx, t, p, h, table);
    } else {
      LoadRejected(ctx, img, t, h, table, x, t[o + x]);
    }
  }

  lemma LoadRejected(ctx: ImgCtx, img: seq<byte>, t: seq<byte>, h: Hdr, table: seq<Ent>, x: nat, v: byte)
    requires ctx.secSz > 0 && PairIn(ctx, img, h, table) && x < HDR_SZ && !(20 <= x < 24) && |t| == |img|
    requires HdrSlice(ctx, t, h.myLba) == HdrSlice(ctx, img, h.myLba)[x := v]
    requires HdrSlice(ctx, img, h.myLba)[x] != v
    ensures LoadPair(ctx, t, h.myLba) == PairHdrInv
  {
    HdrBytesValid(h);
    HdrByteRejected(HdrSlice(ctx, img, h.myLba), x, v, h.myLba);
  }

  /** What becomes of a pair when byte "x" of entry "i" is damaged. */
  lemma EntByteDamaged(ctx: ImgCtx, img: seq<byte>, t: seq<byte>, h: Hdr, table: seq<Ent>, i: nat, x: nat)
    requires ctx.secSz > 0 && PairIn(ctx, img, h, table) && i < |table| && x < 128
    requires OneByte(img, t, LbaToByte(ctx, h.tableLba) + i * 128 + x)
    ensures x < ENT_SZ ==> LoadPair(ctx, t, h.myLba) == PairTableInv
    ensures x >= ENT_SZ ==> LoadPair(ctx, t, h.myLba) == PairOk(h, table)
  {
    var o, p := LbaToByte(ctx, h.myLba), LbaToByte(ctx, h.tableLba);
    RawEntDamaged(img, t, o, p, table, i, x);
    LoadKept(ctx, img, t, h, table);
    LoadTableBy(ctx, t, p, h, table);
  }

  /** One damaged byte anywhere: a pair still loads as it was, or is called invalid. */
  lemma PairDamaged(ctx: ImgCtx, img: seq<byte>, t: seq<byte>, h: Hdr, table: seq<Ent>, y: nat)
    requires ctx.secSz > 0 && PairIn(ctx, img, h, table) && OneByte(img, t, y)
    ensures LoadPair(ctx, t, h.myLba) == PairOk(h, table) || Invalid(LoadPair(ctx, t, h.myLba))
  {
    var o, p := LbaToByte(ctx, h.myLba), LbaToByte(ctx, h.tableLba);
    if o <= y < o + HDR_SZ {
      HdrByteDamaged(ctx, img, t, h, table, y - o);
    } else {
      RawDamaged(img, t, o, p, table, y);
      LoadKept(ctx, img, t, h, table);
      LoadTableBy(ctx, t, p, h, table);
    }
  }

  //////////////////////////////////////////////////////////////////////////////
  // Images
  //////////////////////////////////////////////////////////////////////////////

  lemma PrimPairIn(ctx: ImgCtx, img: seq<byte>, s: Schem)
    requires Validates(ctx) && Saveable(s) && NamesChained(s) && PrimIntact(ctx, img, s)
    ensures PairIn(ctx, img, PrimHdrOf(s, ctx), EntsOf(s.table))
  {
    HdrsOf(s, ctx);
    HdrsMatch(s, ctx);
    EntsChained(s);
    Places(ctx);
    TableFitsMax(ctx.imgSz, PrimTableAt(ctx), |s.table|);
  }

  lemma SecPairIn(ctx: ImgCtx, img: seq<byte>, s: Schem)
    requires Validates(ctx) && Saveable(s) && NamesChained(s) && SecIntact(ctx, img, s)
    ensures PairIn(ctx, img, SecHdrOf(s, ctx), EntsOf(s.table))
  {
    HdrsOf(s, ctx);
    HdrsMatch(s, ctx);
    EntsChained(s);
    Places(ctx);
    TableFitsMax(ctx.imgSz, SecTableAt(ctx), |s.table|);
  }

  /** A damaged byte leaves a loadable or invalid primary pair. */
  lemma PrimDamaged(ctx: ImgCtx, img: seq<byte>, t: seq<byte>, s: Schem, y: nat)
    requires Validates(ctx) && Saveable(s) && NamesChained(s) && PrimIntact(ctx, img, s) && OneByte(img, t, y)
    ensures LoadPair(ctx, t, PRIM_LBA) == PairOk(PrimHdrOf(s, ctx), EntsOf(s.table))
            || Invalid(LoadPair(ctx, t, PRIM_LBA))
  {
    PrimPairIn(ctx, img, s);
    PairDamaged(ctx, img, t, PrimHdrOf(s, ctx), EntsOf(s.table), y);
    HdrsOf(s, ctx);
  }

  lemma SecDamaged(ctx: ImgCtx, img: seq<byte>, t: seq<byte>, s: Schem, y: nat)
    requires Validates(ctx) && Saveable(s) && NamesChained(s) && SecIntact(ctx, img, s) && OneByte(img, t, y)
    ensures !LoadPair(ctx, t, EndLba(ctx)).PairFatal?
  {
    SecPairIn(ctx, img, s);
    PairDamaged(ctx, img, t, SecHdrOf(s, ctx), EntsOf(s.table), y);
    HdrsOf(s, ctx);
  }

  /** No single damaged byte, wherever it is, changes the scheme that a saved image loads as. */
  lemma OneByteTolerated(ctx: ImgCtx, img: seq<byte>, s: Schem, pos: nat, v: byte)
    requires Validates(ctx) && Storable(s) && |img| == ctx.imgSz && pos < |img|
    ensures LoadSchem(ctx, Save(ctx, img, s)[pos := v]) == LoadOk(Cleaned(s))
  {
    var saved := Save(ctx, img, s);
    if v == saved[pos] {
      SameByte(saved, pos);
      RoundTripIff(ctx, img, s);
    } else {
      OtherByte(saved, pos, v);
      Saved(ctx, img, s);
      IntactTolerates(ctx, saved, saved[pos := v], s, pos);
    }
  }

  lemma SameByte(s: seq<byte>, pos: nat)
    requires pos < |s|
    ensures s[pos := s[pos]] == s
  {
  }

  lemma OtherByte(s: seq<byte>, pos: nat, v: byte)
    requires pos < |s| && v != s[pos]
    ensures OneByte(s, s[pos := v], pos)
  {
  }

  lemma IntactTolerates(ctx: ImgCtx, saved: seq<byte>, t: seq<byte>, s: Schem, y: nat)
    requires Validates(ctx) && Storable(s) && PrimIntact(ctx, saved, s) && SecIntact(ctx, saved, s)
    requires OneByte(saved, t, y)
    ensures LoadSchem(ctx, t) == LoadOk(Cleaned(s))
  {
    if y < SecTableAt(ctx) {
      PrimDamaged(ctx, saved, t, s, y);
      DamagedFront(ctx, saved, t, s);
      FromEither(ctx, t, s);
    } else {
      DamagedBack(ctx, saved, t, s);
      SecDamaged(ctx, saved, t, s, y);
      PrimaryDecides(ctx, t, s);
    }
  }

  lemma FromEither(ctx: ImgCtx, img: seq<byte>, s: Schem)
    requires Validates(ctx) && Storable(s) && SecIntact(ctx, img, s)
    requires var r := LoadPair(ctx, img, PRIM_LBA); r == PairOk(PrimHdrOf(s, ctx), EntsOf(s.table)) || Invalid(r)
    ensures LoadSchem(ctx, img) == LoadOk(Cleaned(s))
  {
    if Invalid(LoadPair(ctx, img, PRIM_LBA)) {
      PrimaryRecovered(ctx, img, s);
    } else {
      LoadsByPrim(ctx, img, PrimHdrOf(s, ctx), EntsOf(s.table));
      SecLoads(ctx, img, s);
      HdrsOf(s, ctx);
      ConvertBack(s, ctx);
    }
  }
}
