/** What the sector searches promise about the partitions they leave room for. */
module SectorSearch {
  import opened ImgCtxs
  import opened Schemes

  //////////////////////////////////////////////////////////////////////////////
  // Start
  //////////////////////////////////////////////////////////////////////////////

  /** The least free sector of the usable range. */
  ghost predicate IsLeastFree(s: Schem, ign: int, lf: nat) {
    s.first <= lf <= s.last && Free(s, ign, lf) && forall x: nat :: s.first <= x < lf ==> !Free(s, ign, x)
  }

  ghost predicate StartsAt(s: Schem, ctx: ImgCtx, ign: int, lf: nat, r: int)
    requires ctx.align > 0
  {
    IsLeastFree(s, ign, lf)
    && var a := LbaAlign(ctx, lf, true); r == if a <= s.last && Free(s, ign, a) then a else lf
  }

  /**
    The start offered is usable and free: the least free sector, or the aligned
    sector next to it if that is usable and free; none is offered only if nothing
    is free.
   */
  lemma StartIsFree(s: Schem, ctx: ImgCtx, ign: int)
    requires ctx.align > 0
    ensures var r := StartSector(s, ctx, ign);
            && (r == -1 <==> NoneFree(s, ign, s.first, s.last + 1))
            && (r != -1 ==> s.first <= r <= s.last && Free(s, ign, r))
            && (r != -1 && r % ctx.align != 0 ==>
                  !Free(s, ign, LbaAlign(ctx, r, true)) || LbaAlign(ctx, r, true) > s.last)
            && (r != -1 ==> exists lf: nat :: StartsAt(s, ctx, ign, lf, r))
  {
    LeastFreeMeaning(s, ign, s.first);
    var lf := LeastFree(s, ign, s.first);
    if lf >= 0 {
      AlignUp(ctx, lf);
      assert StartsAt(s, ctx, ign, lf, StartSector(s, ctx, ign));
    }
  }

  //////////////////////////////////////////////////////////////////////////////
  // End
  //////////////////////////////////////////////////////////////////////////////

  /** Slot "i" is another partition that starts above "from". */
  predicate Above(s: Schem, ign: int, from: nat, i: nat) {
    Other(s, ign, i) && from < s.table[i].startLba
  }

  /** Slot "k" is the lowest other partition above "from". */
  ghost predicate Lowest(s: Schem, ign: int, from: nat, k: nat) {
    Above(s, ign, from, k) && forall i: nat :: Above(s, ign, from, i) ==> s.table[k].startLba <= s.table[i].startLba
  }

  /**
    The strict comparison of the program passes a partition over when its start
    is the bound already: the last usable sector, or the sector below a
    partition that came earlier in the table and was not passed over itself.
   */
  ghost predicate Missed(s: Schem, ign: int, from: nat, k: nat)
    requires k < |s.table|
    decreases k
  {
    s.table[k].startLba == s.last
    || exists j: nat :: j < k && Above(s, ign, from, j) && s.table[j].startLba == s.table[k].startLba + 1
                        && !Missed(s, ign, from, j)
  }

  lemma {:induction false} BoundFacts(s: Schem, ign: int, from: nat, n: nat)
    requires n <= |s.table|
    ensures var b := Bound(s, ign, from, n);
            && b <= s.last && (b < s.last ==> from <= b)
            && (b == s.last || exists j: nat :: j < n && Above(s, ign, from, j) && s.table[j].startLba == b + 1)
            && (forall i: nat :: i < n && Above(s, ign, from, i) ==> b <= s.table[i].startLba)
  {
    if n > 0 {
      BoundFacts(s, ign, from, n - 1);
    }
  }

  /** The bound only moves down, and only to a sector right below a partition. */
  lemma {:induction false} BoundMoves(s: Schem, ign: int, from: nat, m: nat, n: nat)
    requires m <= n <= |s.table|
    ensures var b := Bound(s, ign, from, n);
            b == Bound(s, ign, from, m)
            || (b < Bound(s, ign, from, m)
                && exists i: nat :: m <= i < n && Above(s, ign, from, i) && s.table[i].startLba == b + 1)
  {
    if m < n {
      BoundMoves(s, ign, from, m, n - 1);
      var i := n - 1;
      if Above(s, ign, from, i) && s.table[i].startLba < Bound(s, ign, from, i) {
        assert Bound(s, ign, from, n) == s.table[i].startLba - 1;
      }
    }
  }

  ghost predicate LowestSoFar(s: Schem, ign: int, from: nat, k: nat) {
    Above(s, ign, from, k)
    && forall i: nat :: i < k && Above(s, ign, from, i) ==> s.table[k].startLba < s.table[i].startLba
  }

  lemma DifferentStarts(s: Schem, ign: int, from: nat, i: nat, k: nat)
    requires Safe(s) && i != k && Above(s, ign, from, i) && Above(s, ign, from, k)
    ensures s.table[i].startLba != s.table[k].startLba
    ensures s.table[k].startLba < s.table[i].startLba ==> s.table[k].endLba < s.table[i].startLba
  {
    if i < k {
      assert Apart(s.table[i], s.table[k]);
    } else {
      assert Apart(s.table[k], s.table[i]);
    }
    assert InRange(s, s.table[i]) && InRange(s, s.table[k]);
  }

  /** The bound at the lowest slot so far is its start exactly if the slot is missed. */
  lemma {:induction false} MissedIsBound(s: Schem, ign: int, from: nat, k: nat)
    requires Safe(s) && LowestSoFar(s, ign, from, k)
    ensures Bound(s, ign, from, k) >= s.table[k].startLba
    ensures Missed(s, ign, from, k) <==> Bound(s, ign, from, k) == s.table[k].startLba
    decreases k
  {
    var m := s.table[k].startLba;
    assert InRange(s, s.table[k]);
    BoundFacts(s, ign, from, k);
    if j: nat :| j < k && Above(s, ign, from, j) && s.table[j].startLba == m + 1 {
      assert LowestSoFar(s, ign, from, j) by {
        forall i: nat | i < j && Above(s, ign, from, i)
          ensures m + 1 < s.table[i].startLba
        {
          DifferentStarts(s, ign, from, i, j);
        }
      }
      MissedIsBound(s, ign, from, j);
      assert InRange(s, s.table[j]);
      BoundMoves(s, ign, from, j + 1, k);
      forall i: nat | i < k && i != j && Above(s, ign, from, i)
        ensures s.table[i].startLba != m + 1
      {
        DifferentStarts(s, ign, from, i, j);
      }
      if Missed(s, ign, from, j) {
        assert Bound(s, ign, from, j + 1) == m + 1;
        assert Bound(s, ign, from, k) != m;
      } else {
        assert Bound(s, ign, from, j + 1) == m;
      }
    }
  }

  /** With nothing above, the bound is the end of the usable range. */
  lemma BoundAlone(s: Schem, ign: int, from: nat)
    requires forall i: nat :: !Above(s, ign, from, i)
    ensures Bound(s, ign, from, |s.table|) == s.last
  {
    BoundFacts(s, ign, from, |s.table|);
  }

  /** Otherwise it is one below the lowest partition above, or its start if that is missed. */
  lemma BoundExact(s: Schem, ign: int, from: nat, k: nat)
    requires Safe(s) && Lowest(s, ign, from, k)
    ensures Bound(s, ign, from, |s.table|)
            == if Missed(s, ign, from, k) then s.table[k].startLba else s.table[k].startLba - 1
    ensures Missed(s, ign, from, k) ==> s.table[k].startLba == s.table[k].endLba
  {
    var m := s.table[k].startLba;
    forall i: nat | i != k && Above(s, ign, from, i)
      ensures m < s.table[i].startLba && s.table[k].endLba < s.table[i].startLba
    {
      DifferentStarts(s, ign, from, i, k);
    }
    assert InRange(s, s.table[k]);
    assert LowestSoFar(s, ign, from, k);
    MissedIsBound(s, ign, from, k);
    BoundMoves(s, ign, from, k + 1, |s.table|);
  }

  //////////////////////////////////////////////////////////////////////////////
  // Both
  //////////////////////////////////////////////////////////////////////////////

  /** A stretch with a free first sector that no other partition starts inside of is clear. */
  lemma ClearFromFree(s: Schem, ign: int, from: nat, b: nat)
    requires Free(s, ign, from) && from <= b
    requires forall i: nat :: Above(s, ign, from, i) ==> b < s.table[i].startLba
    requires Safe(s)
    ensures Clear(s, ign, from, b)
  {
    forall i: nat | Other(s, ign, i)
      ensures !Touches(s.table[i], from, b)
    {
      assert InRange(s, s.table[i]);
      assert !Covers(s.table[i], from);
      if Above(s, ign, from, i) {
        assert b < s.table[i].startLba;
      }
    }
  }

  lemma SegmentEndFacts(ctx: ImgCtx, b: nat)
    requires ctx.align > 0
    ensures var t := SegmentEnd(ctx, b);
            && t <= b <= t + ctx.align
            && (ctx.align == 1 ==> t == b)
            && (ctx.align > 1 && b >= ctx.align ==> t < b && (t + 1) % ctx.align == 0)
            && (b < ctx.align ==> t == 0)
  {
    AlignDown(ctx, b);
    var a := LbaAlign(ctx, b, false);
    if ctx.align > 1 && a == 0 {
      assert b < ctx.align;
    }
    if b < ctx.align {
      if a > 0 {
        MultiplesApart(ctx.align, 0, a);
      }
    }
  }

  /** Sector "x" ends an alignment segment. */
  predicate Border(align: nat, x: nat)
    requires align > 0
  {
    (x + 1) % align == 0
  }

  /** The highest segment border below a sector. */
  ghost predicate LastBorder(align: nat, b: nat, e: nat)
    requires align > 0
  {
    e < b && Border(align, e) && forall x: nat :: e < x < b ==> !Border(align, x)
  }

  lemma SegmentEndIsLast(ctx: ImgCtx, b: nat)
    requires ctx.align > 1 && b >= ctx.align
    ensures LastBorder(ctx.align, b, SegmentEnd(ctx, b))
  {
    SegmentEndFacts(ctx, b);
    var e := SegmentEnd(ctx, b);
    forall x: nat | e < x < b
      ensures !Border(ctx.align, x)
    {
      if Border(ctx.align, x) {
        MultiplesApart(ctx.align, e + 1, x + 1);
      }
    }
  }

  /**
    The end offered for a start in range, on every table: the highest segment
    border below the bound, if the stretch up to it is not empty and clear, and
    else the bound.  Below the first border the border is taken to be sector 0.
   */
  lemma LastSectorExact(s: Schem, ctx: ImgCtx, ign: int, from: nat)
    requires ctx.align > 0 && from <= s.last
    ensures var b, r := Bound(s, ign, from, |s.table|), LastSector(s, ctx, ign, from);
            && from <= r <= b <= s.last
            && (ctx.align == 1 ==> r == b)
            && (ctx.align > 1 && b < ctx.align ==> r == if from == 0 && Free(s, ign, 0) then 0 else b)
            && (ctx.align > 1 && b >= ctx.align ==>
                  exists e: nat :: LastBorder(ctx.align, b, e)
                                   && r == if from <= e && Clear(s, ign, from, e) then e else b)
  {
    var b := Bound(s, ign, from, |s.table|);
    BoundFacts(s, ign, from, |s.table|);
    SegmentEndFacts(ctx, b);
    if ctx.align > 1 && b >= ctx.align {
      SegmentEndIsLast(ctx, b);
    }
    ClearZero(s, ign);
  }

  lemma ClearZero(s: Schem, ign: int)
    ensures Clear(s, ign, 0, 0) <==> Free(s, ign, 0)
  {
    forall i: nat | Other(s, ign, i)
      ensures Touches(s.table[i], 0, 0) <==> Covers(s.table[i], 0)
    {
    }
  }

  /** No end is offered exactly if the start lies beyond the usable range. */
  lemma LastSectorFails(s: Schem, ctx: ImgCtx, ign: int, from: nat)
    requires ctx.align > 0
    ensures LastSector(s, ctx, ign, from) == -1 <==> s.last < from
  {
    BoundFacts(s, ign, from, |s.table|);
  }

  /** The segment end decides: it lies at or above the start and is not the bound itself. */
  predicate SegmentFits(ctx: ImgCtx, from: nat, b: nat)
    requires ctx.align > 0
  {
    from <= SegmentEnd(ctx, b) < b
  }

  /**
    A free start with the end offered for it passes the overlap test, unless the
    lowest partition above was missed and no segment end lies between the two.
   */
  lemma OfferedEndOverlapsIff(s: Schem, ctx: ImgCtx, ign: int, from: nat)
    requires Safe(s) && ctx.align > 0
    requires s.first <= from <= s.last && Free(s, ign, from)
    ensures LastSector(s, ctx, ign, from) >= 0
    ensures Clear(s, ign, from, LastSector(s, ctx, ign, from))
            <==> OfferFits(s, ctx, ign, from)
  {
    var b, r := Bound(s, ign, from, |s.table|), LastSector(s, ctx, ign, from);
    BoundFacts(s, ign, from, |s.table|);
    SegmentEndFacts(ctx, b);
    if forall i: nat :: !Above(s, ign, from, i) {
      BoundAlone(s, ign, from);
      ClearFromFree(s, ign, from, b);
      ClearFromFree(s, ign, from, r);
    } else {
      var i: nat :| Above(s, ign, from, i);
      var k := LowestExists(s, ign, from, i);
      BoundExact(s, ign, from, k);
      forall j: nat | Lowest(s, ign, from, j)
        ensures j == k
      {
        if j != k {
          DifferentStarts(s, ign, from, j, k);
        }
      }
      if Missed(s, ign, from, k) {
        assert b == s.table[k].startLba;
        assert Touches(s.table[k], from, b);
        if SegmentEnd(ctx, b) < b && from <= SegmentEnd(ctx, b) {
          ClearFromFree(s, ign, from, SegmentEnd(ctx, b));
        }
      } else {
        ClearFromFree(s, ign, from, r);
      }
    }
  }

  lemma LowestExists(s: Schem, ign: int, from: nat, i: nat) returns (k: nat)
    requires Above(s, ign, from, i)
    ensures Lowest(s, ign, from, k)
  {
    k := i;
    for j := 0 to |s.table|
      invariant Above(s, ign, from, k)
      invariant forall x: nat :: x < j && Above(s, ign, from, x) ==> s.table[k].startLba <= s.table[x].startLba
    {
      if Above(s, ign, from, j) && s.table[j].startLba < s.table[k].startLba {
        k := j;
      }
    }
  }

  /** No partition is missed that decides the end offered for this start. */
  ghost predicate OfferFits(s: Schem, ctx: ImgCtx, ign: int, from: nat)
    requires ctx.align > 0
  {
    forall k: nat :: Lowest(s, ign, from, k) && Missed(s, ign, from, k) ==> SegmentFits(ctx, from, s.table[k].startLba)
  }

  /** Accepting both defaults works whenever no other partition is a single sector. */
  lemma DefaultsWork(s: Schem, ctx: ImgCtx, ign: int)
    requires Safe(s) && ctx.align > 0
    requires forall i: nat :: Other(s, ign, i) ==> s.table[i].startLba < s.table[i].endLba
    ensures var from := StartSector(s, ctx, ign);
            from == -1
            || (var to := LastSector(s, ctx, ign, from);
                s.first <= from <= to <= s.last && Clear(s, ign, from, to))
  {
    StartIsFree(s, ctx, ign);
    var from := StartSector(s, ctx, ign);
    if from != -1 {
      LastSectorExact(s, ctx, ign, from);
      OfferedEndOverlapsIff(s, ctx, ign, from);
      forall k: nat | Lowest(s, ign, from, k)
        ensures !Missed(s, ign, from, k)
      {
        BoundExact(s, ign, from, k);
      }
    }
  }
}
