/** Image geometry: sectors, alignment, cylinders (libs/libpartman/src/img_ctx.c). */
module ImgCtxs {
  import opened Words

  /** Sector size and image size are in bytes, the alignment is in sectors. */
  datatype ImgCtx = ImgCtx(secSz: u64, imgSz: u64, align: u64, hpc: byte, spt: byte)

  /** A disk address as the partition table of the MBR stores it. */
  datatype Chs = Chs(c: nat, h: nat, s: nat)

  const IMG_MIN_SZ := 1024 * 512

  /** The defaults; an option given as zero leaves its default alone. */
  function Init(imgSz: u64, secSz: u64, align: u64, hpc: byte, spt: byte): ImgCtx {
    ImgCtx(if secSz != 0 then secSz else 512, imgSz,
           if align != 0 then align else 1024 * 1024 / 512,
           if hpc != 0 then hpc else 255,
           if spt != 0 then spt else 63)
  }

  /** The powers of two among the sector sizes 512..4096 are these four. */
  predicate Validates(ctx: ImgCtx) {
    && ctx.imgSz >= IMG_MIN_SZ
    && ctx.secSz in {512, 1024, 2048, 4096}
    && ctx.hpc >= 1
    && 1 <= ctx.spt <= 63
  }

  /** What holds before any scheme code runs; an alignment option of zero leaves the default alone. */
  predicate Ready(ctx: ImgCtx) {
    Validates(ctx) && ctx.align >= 1
  }

  lemma InitAlign(imgSz: u64, secSz: u64, align: u64, hpc: byte, spt: byte)
    ensures var ctx := Init(imgSz, secSz, align, hpc, spt);
            Ready(ctx) <==> imgSz >= IMG_MIN_SZ && secSz in {0, 512, 1024, 2048, 4096} && spt <= 63
  {
  }

  function LbaToByte(ctx: ImgCtx, lba: nat): nat {
    lba * ctx.secSz
  }

  function ByteToLba(ctx: ImgCtx, bytes: nat, roundUp: bool): nat
    requires ctx.secSz > 0
  {
    DivNat(bytes, ctx.secSz);
    bytes / ctx.secSz + if roundUp && bytes % ctx.secSz != 0 then 1 else 0
  }

  lemma DivNat(a: nat, d: nat)
    requires d > 0
    ensures a / d >= 0
  {
    assert a == d * (a / d) + a % d;
    assert d * (a / d + 1) > 0;
  }

  /** The least whole number of sectors that holds "bytes". */
  lemma ByteToLbaUp(ctx: ImgCtx, bytes: nat)
    requires ctx.secSz > 0
    ensures var n := ByteToLba(ctx, bytes, true);
            bytes <= n * ctx.secSz < bytes + ctx.secSz
  {
    var q := bytes / ctx.secSz;
    assert bytes == ctx.secSz * q + bytes % ctx.secSz;
    assert (q + 1) * ctx.secSz == q * ctx.secSz + ctx.secSz;
  }

  lemma ByteToLbaDown(ctx: ImgCtx, bytes: nat)
    requires ctx.secSz > 0
    ensures var n := ByteToLba(ctx, bytes, false);
            n * ctx.secSz <= bytes < n * ctx.secSz + ctx.secSz
  {
    assert bytes == ctx.secSz * (bytes / ctx.secSz) + bytes % ctx.secSz;
  }

  function LbaAlign(ctx: ImgCtx, lba: nat, next: bool): nat
    requires ctx.align > 0
  {
    (lba / ctx.align) * ctx.align + if next && lba % ctx.align != 0 then ctx.align else 0
  }

  /** Rounding up: the least multiple of the alignment that is not below. */
  lemma AlignUp(ctx: ImgCtx, lba: nat)
    requires ctx.align > 0
    ensures var a := LbaAlign(ctx, lba, true);
            lba <= a < lba + ctx.align && a % ctx.align == 0
  {
    var q := lba / ctx.align;
    assert lba == ctx.align * q + lba % ctx.align;
    assert (q + 1) * ctx.align == q * ctx.align + ctx.align;
    MultipleMod(ctx.align, q);
    MultipleMod(ctx.align, q + 1);
  }

  /** Whatever the alignment, aligning up a sector below 2^63 stays within 64 bits. */
  lemma AlignFits(ctx: ImgCtx, lba: nat)
    requires ctx.align > 0 && lba < 0x8000_0000_0000_0000
    ensures LbaAlign(ctx, lba, true) < 0x1_0000_0000_0000_0000
  {
    AlignUp(ctx, lba);
    if ctx.align > lba {
      QuotientIs(lba, ctx.align, 0, lba);
    }
  }

  lemma AlignZero(ctx: ImgCtx, lba: nat)
    requires ctx.align > 0 && lba == 0
    ensures LbaAlign(ctx, lba, true) == 0
  {
    AlignUp(ctx, lba);
    MultiplesApart(ctx.align, lba, LbaAlign(ctx, lba, true));
  }

  lemma AlignDown(ctx: ImgCtx, lba: nat)
    requires ctx.align > 0
    ensures var a := LbaAlign(ctx, lba, false);
            a <= lba < a + ctx.align && a % ctx.align == 0
  {
    var q := lba / ctx.align;
    assert lba == ctx.align * q + lba % ctx.align;
    MultipleMod(ctx.align, q);
  }

  /** Two multiples less than one alignment apart are the same. */
  lemma MultiplesApart(d: nat, x: nat, y: nat)
    requires d > 0 && x % d == 0 && y % d == 0 && x <= y < x + d
    ensures x == y
  {
    DivNat(x, d);
    DivNat(y, d);
    ProductsApart(d, x / d, y / d, x, y);
  }

  lemma ProductsApart(d: nat, p: nat, q: nat, x: nat, y: nat)
    requires x == d * p && y == d * q && x <= y < x + d
    ensures x == y
  {
    assert d * (p + 1) == d * p + d;
    MulLess(d, q, p + 1);
    if q < p {
      MulMono(d, q + 1, p);
    }
  }

  /** Between a sector and its round-up, every sector rounds up to the same. */
  lemma AlignUpBetween(ctx: ImgCtx, lba: nat, x: nat)
    requires ctx.align > 0 && lba <= x <= LbaAlign(ctx, lba, true)
    ensures LbaAlign(ctx, x, true) == LbaAlign(ctx, lba, true)
  {
    AlignUp(ctx, lba);
    AlignUp(ctx, x);
    var a, b := LbaAlign(ctx, lba, true), LbaAlign(ctx, x, true);
    if a <= b {
      MultiplesApart(ctx.align, a, b);
    } else {
      MultiplesApart(ctx.align, b, a);
    }
  }

  //////////////////////////////////////////////////////////////////////////////
  // Cylinders, heads, sectors
  //////////////////////////////////////////////////////////////////////////////

  function MaxChsLba(ctx: ImgCtx): int {
    (0x3FF * ctx.hpc + (ctx.hpc - 1)) * ctx.spt + (ctx.spt - 1)
  }

  /** The masks select disjoint bits, so the ORs of the program are sums. */
  function ChsTupleToInt(c: nat, h: nat, s: nat): u32 {
    (c % 0x100) * 0x1_0000 + (c / 0x100 % 4) * 0x4000 + (s % 0x40) * 0x100 + h % 0x100
  }

  function LbaToChs(ctx: ImgCtx, lba: nat, protective: bool): u32
    requires Validates(ctx)
  {
    if lba > MaxChsLba(ctx) && protective then
      ChsTupleToInt(1023, 255, 63)
    else
      var l: nat := if lba > MaxChsLba(ctx) then MaxChsNat(ctx); MaxChsLba(ctx) else lba;
      var cyl: nat := ctx.hpc * ctx.spt;
      MulMono(ctx.spt, 1, ctx.hpc);
      DivNat(l, cyl);
      DivNat(l, ctx.spt);
      ChsTupleToInt(l / cyl, (l / ctx.spt) % ctx.hpc, l % ctx.spt + 1)
  }

  function ChsIntToTuple(chs: u32): Chs {
    Chs(chs / 0x4000 % 0x400, chs % 0x100, chs / 0x100 % 0x40)
  }

  /** The on-disk layout: head, sector with the high cylinder bits on top, low cylinder byte. */
  function ChsOnDisk(chs: u32): Chs {
    Chs(chs / 0x1_0000 % 0x100 + 0x100 * (chs / 0x4000 % 4), chs % 0x100, chs / 0x100 % 0x40)
  }

  lemma MaxChsNat(ctx: ImgCtx)
    requires Validates(ctx)
    ensures MaxChsLba(ctx) == 1024 * (ctx.hpc * ctx.spt) - 1 >= 0
  {
    var h: int, s: int := ctx.hpc, ctx.spt;
    assert (0x3FF * h + (h - 1)) * s == 1024 * (h * s) - s;
    MulMono(s, 1, h);
  }

  /** What was packed is what the on-disk layout holds. */
  lemma PackedOnDisk(c: nat, h: nat, s: nat)
    requires c < 1024 && h < 256 && s < 64
    ensures ChsOnDisk(ChsTupleToInt(c, h, s)) == Chs(c, h, s)
  {
    var lo, hi := c % 0x100, c / 0x100;
    assert c == 0x100 * hi + lo && c / 0x100 % 4 == hi;
    PackedFields(lo, hi, h, s, ChsTupleToInt(c, h, s));
    assert (lo * 4 + hi) % 4 == hi;
  }

  /**
    The program's own decoder, used for printing, rotates the cylinder: it is
    right for cylinders 0, 341, 682 and 1023 only.
   */
  lemma TuplePrintsRightIff(c: nat, h: nat, s: nat)
    requires c < 1024 && h < 256 && s < 64
    ensures ChsIntToTuple(ChsTupleToInt(c, h, s)) == Chs(c, h, s) <==> c % 341 == 0
  {
    var lo, hi := c % 0x100, c / 0x100;
    assert c == 0x100 * hi + lo && c / 0x100 % 4 == hi;
    PackedFields(lo, hi, h, s, ChsTupleToInt(c, h, s));
    RotatedIff(lo, hi);
  }

  /** Rotating the ten cylinder bits by two places keeps them exactly if they repeat every two places. */
  lemma RotatedIff(lo: nat, hi: nat)
    requires lo < 0x100 && hi < 4
    ensures (lo * 4 + hi) % 0x400 == 0x100 * hi + lo <==> (0x100 * hi + lo) % 341 == 0
  {
    var c := 0x100 * hi + lo;
    var d := lo - 85 * hi;
    assert lo * 4 + hi == c <==> d == 0;
    if d >= 0 {
      QuotientIs(c, 341, hi, d);
    } else {
      QuotientIs(c, 341, hi - 1, 341 + d);
    }
    QuotientIs(lo * 4 + hi, 0x400, 0, lo * 4 + hi);
  }

  lemma PackedFields(lo: nat, hi: nat, h: nat, s: nat, v: nat)
    requires lo < 0x100 && hi < 4 && h < 0x100 && s < 0x40
    requires v == lo * 0x1_0000 + hi * 0x4000 + s * 0x100 + h
    ensures v / 0x1_0000 == lo && v / 0x4000 == lo * 4 + hi && v / 0x100 % 0x40 == s && v % 0x100 == h
  {
    assert v / 0x100 == lo * 0x100 + hi * 0x40 + s;
  }

  /** Dividing by tracks and cylinders takes a sector number apart. */
  lemma SplitLba(l: nat, h: nat, s: nat)
    requires h > 0 && s > 0 && h * s > 0
    ensures var c, t, r := l / (h * s), (l / s) % h, l % s;
            l == (c * h + t) * s + r && t < h && r < s
  {
    var q, r := l / s, l % s;
    var c, t := q / h, q % h;
    DivNat(l, s);
    SplitProduct(l, h, s, q, c, t, r);
    QuotientIs(l, h * s, c, t * s + r);
  }

  lemma SplitProduct(l: nat, h: nat, s: nat, q: nat, c: int, t: nat, r: nat)
    requires l == s * q + r && q == h * c + t && t < h && r < s
    ensures l == (c * h + t) * s + r == (h * s) * c + (t * s + r)
    ensures t * s + r < h * s
  {
    assert s * (h * c + t) == s * (h * c) + s * t;
    assert (h * c) * s == (h * s) * c;
    MulMono(s, t + 1, h);
    assert s * (t + 1) == t * s + s;
  }

  lemma QuotientIs(l: nat, d: nat, q: nat, r: nat)
    requires d > 0 && l == d * q + r && r < d
    ensures l / d == q && l % d == r
  {
    var k := l / d;
    assert l == d * k + l % d;
    assert d * (q + 1) == d * q + d && d * (k + 1) == d * k + d;
    MulLess(d, q, k + 1);
    MulLess(d, k, q + 1);
  }

  /** Every sector that CHS can address is stored exactly. */
  lemma ChsExact(ctx: ImgCtx, lba: nat, protective: bool)
    requires Validates(ctx) && lba < 1024 * (ctx.hpc * ctx.spt)
    ensures var t := ChsOnDisk(LbaToChs(ctx, lba, protective));
            && t.c <= 1023 && t.h < ctx.hpc && 1 <= t.s <= ctx.spt
            && (t.c * ctx.hpc + t.h) * ctx.spt + (t.s - 1) == lba
  {
    var c, h, r := StoredTuple(ctx, lba, protective);
  }

  /** A sector that CHS can address is stored as its tuple. */
  lemma StoredTuple(ctx: ImgCtx, lba: nat, protective: bool) returns (c: nat, h: nat, r: nat)
    requires Validates(ctx) && lba < 1024 * (ctx.hpc * ctx.spt)
    ensures c <= 1023 && h < ctx.hpc && r < ctx.spt && (c * ctx.hpc + h) * ctx.spt + r == lba
    ensures ChsOnDisk(LbaToChs(ctx, lba, protective)) == Chs(c, h, r + 1)
  {
    c, h, r := PackedTuple(ctx, lba, protective);
    PackedOnDisk(c, h, r + 1);
  }

  lemma PackedTuple(ctx: ImgCtx, lba: nat, protective: bool) returns (c: nat, h: nat, r: nat)
    requires Validates(ctx) && lba < 1024 * (ctx.hpc * ctx.spt)
    ensures c <= 1023 && h < ctx.hpc && r < ctx.spt && (c * ctx.hpc + h) * ctx.spt + r == lba
    ensures LbaToChs(ctx, lba, protective) == ChsTupleToInt(c, h, r + 1)
  {
    MaxChsNat(ctx);
    MulMono(ctx.spt, 1, ctx.hpc);
    c, h, r := Tuple(lba, ctx.hpc, ctx.spt);
    LbaToChsIs(ctx, lba, protective, c, h, r);
  }

  lemma LbaToChsIs(ctx: ImgCtx, lba: nat, protective: bool, c: nat, h: nat, r: nat)
    requires Validates(ctx) && lba <= MaxChsLba(ctx) && ctx.hpc * ctx.spt > 0
    requires c == lba / (ctx.hpc * ctx.spt) && h == (lba / ctx.spt) % ctx.hpc && r == lba % ctx.spt
    ensures LbaToChs(ctx, lba, protective) == ChsTupleToInt(c, h, r + 1)
  {
  }

  lemma Tuple(lba: nat, hpc: nat, spt: nat) returns (c: nat, h: nat, r: nat)
    requires hpc > 0 && spt > 0 && hpc * spt > 0 && lba < 1024 * (hpc * spt)
    ensures c == lba / (hpc * spt) && h == (lba / spt) % hpc && r == lba % spt
    ensures c <= 1023 && h < hpc && r < spt && (c * hpc + h) * spt + r == lba
  {
    SplitLba(lba, hpc, spt);
    var d := hpc * spt;
    c, h, r := lba / d, (lba / spt) % hpc, lba % spt;
    assert lba == d * c + lba % d;
    MulLess(d, c, 1024);
  }

  /** Different addressable sectors are stored differently. */
  lemma ChsInjective(ctx: ImgCtx, x: nat, y: nat, p: bool, q: bool)
    requires Validates(ctx)
    requires x < 1024 * (ctx.hpc * ctx.spt) && y < 1024 * (ctx.hpc * ctx.spt)
    requires LbaToChs(ctx, x, p) == LbaToChs(ctx, y, q)
    ensures x == y
  {
    ChsExact(ctx, x, p);
    ChsExact(ctx, y, q);
  }

  /** Sectors beyond the reach of CHS are stored as the last address, or as the protective mark. */
  lemma ChsSaturates(ctx: ImgCtx, lba: nat, protective: bool)
    requires Validates(ctx) && lba >= 1024 * (ctx.hpc * ctx.spt)
    ensures ChsOnDisk(LbaToChs(ctx, lba, protective))
            == if protective then Chs(1023, 255, 63) else Chs(1023, ctx.hpc - 1, ctx.spt)
  {
    MaxChsNat(ctx);
    if protective {
      PackedOnDisk(1023, 255, 63);
    } else {
      var m: nat := MaxChsLba(ctx);
      ChsExact(ctx, m, protective);
      var t := ChsOnDisk(LbaToChs(ctx, m, protective));
      LastAddress(t.c, t.h, t.s - 1, ctx.hpc, ctx.spt);
    }
  }

  lemma LastAddress(c: nat, h: nat, r: nat, hpc: nat, spt: nat)
    requires c <= 1023 && h < hpc && r < spt && (c * hpc + h) * spt + r == 1024 * (hpc * spt) - 1
    ensures c == 1023 && h == hpc - 1 && r == spt - 1
  {
    var a := c * hpc + h;
    assert spt * (1024 * hpc) == 1024 * (hpc * spt);
    assert spt * (a + 1) == a * spt + spt;
    MulLess(spt, 1024 * hpc, a + 2) by {
      assert spt * (a + 2) == a * spt + spt + spt;
    }
    assert a + 1 >= 1024 * hpc;
    MulMono(hpc, c, 1023);
    assert a + 1 == 1024 * hpc;
    if c < 1023 {
      MulMono(hpc, c, 1022);
    }
  }
}
