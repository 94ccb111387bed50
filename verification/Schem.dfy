/**
  Partitioning schemes and the sector searches over their tables
  (libs/libpartman/include/schem.h, libs/libpartman/src/schem.c:309-489).
 */
module Schemes {
  import opened Words
  import opened Guids
  import opened ImgCtxs

  datatype Kind = Mbr | Gpt

  /** The unions of the C structures are two fields each: "I" for MBR, "Guid" for GPT. */
  datatype PartFields = PartFields(typeI: byte, typeGuid: Guid, uniqueGuid: Guid,
                                   startLba: u64, endLba: u64, attr: u64,
                                   name: seq<u32>, bootInd: byte)

  type Part = p: PartFields | |p.name| == 36
    witness PartFields(0, ZERO_GUID, ZERO_GUID, 0, 0, 0, seq(36, _ => 0), 0)

  /** A slot with all bytes zero. */
  function NoPart(): Part {
    PartFields(0, ZERO_GUID, ZERO_GUID, 0, 0, 0, ZeroName(), 0)
  }

  /** An empty table. */
  function NoParts(n: nat): (parts: seq<Part>)
    ensures |parts| == n && forall i :: 0 <= i < n ==> parts[i] == NoPart()
  {
    seq(n, _ => NoPart())
  }

  predicate IsUsed(kind: Kind, p: Part) {
    if kind.Mbr? then p.typeI != 0 else p.typeGuid != ZERO_GUID
  }

  predicate NoneUsed(s: Schem) {
    forall i :: 0 <= i < |s.table| ==> !IsUsed(s.kind, s.table[i])
  }

  /** The value of a scheme; the table has as many slots as the partition count. */
  datatype Schem = Schem(kind: Kind, idI: u32, idGuid: Guid, first: u64, last: u64, table: seq<Part>)

  //////////////////////////////////////////////////////////////////////////////
  // Occupied and free sectors
  //////////////////////////////////////////////////////////////////////////////

  predicate Covers(p: Part, lba: nat) {
    p.startLba <= lba <= p.endLba
  }

  /** Slot "i" holds a partition other than the ignored one. */
  predicate Other(s: Schem, ign: int, i: nat) {
    i < |s.table| && i != ign && IsUsed(s.kind, s.table[i])
  }

  ghost predicate Free(s: Schem, ign: int, lba: nat) {
    forall i: nat :: Other(s, ign, i) ==> !Covers(s.table[i], lba)
  }

  /** The least free sector in lo..last, or -1. */
  ghost function LeastFree(s: Schem, ign: int, lo: nat): int
    decreases s.last + 1 - lo
  {
    if lo > s.last then -1
    else if Free(s, ign, lo) then lo
    else LeastFree(s, ign, lo + 1)
  }

  ghost predicate NoneFree(s: Schem, ign: int, lo: nat, hi: nat) {
    forall l :: lo <= l < hi ==> !Free(s, ign, l)
  }

  /** Where a new partition starts: the least free sector, moved up to an aligned one if that is free. */
  ghost function StartSector(s: Schem, ctx: ImgCtx, ign: int): int
    requires ctx.align > 0
  {
    var lf := LeastFree(s, ign, s.first);
    if lf < 0 then -1
    else if LbaAlign(ctx, lf, true) <= s.last && Free(s, ign, LbaAlign(ctx, lf, true))
    then LbaAlign(ctx, lf, true)
    else lf
  }

  /** What is offered; a scheme without a usable range gets its first sector if that is free. */
  ghost function StartOffered(s: Schem, ctx: ImgCtx, ign: int): int
    requires ctx.align > 0
  {
    if s.first <= s.last then StartSector(s, ctx, ign) else if Free(s, ign, s.first) then s.first else -1
  }

  /** What LeastFree means: nothing free below it, and it is free itself. */
  lemma {:induction false} LeastFreeMeaning(s: Schem, ign: int, lo: nat)
    ensures var lf := LeastFree(s, ign, lo);
            if lf < 0 then lf == -1 && NoneFree(s, ign, lo, s.last + 1)
            else lo <= lf <= s.last && Free(s, ign, lf) && NoneFree(s, ign, lo, lf)
    decreases s.last + 1 - lo
  {
    if lo <= s.last && !Free(s, ign, lo) {
      LeastFreeMeaning(s, ign, lo + 1);
    }
  }

  lemma LeastFreeUnique(s: Schem, ign: int, lo: nat, lf: int)
    requires if lf < 0 then lf == -1 && NoneFree(s, ign, lo, s.last + 1)
             else lo <= lf <= s.last && Free(s, ign, lf) && NoneFree(s, ign, lo, lf)
    ensures LeastFree(s, ign, lo) == lf
  {
    LeastFreeMeaning(s, ign, lo);
  }

  //////////////////////////////////////////////////////////////////////////////
  // Overlap
  //////////////////////////////////////////////////////////////////////////////

  /** The three tests of the program. */
  predicate Touches(p: Part, a: nat, b: nat) {
    Covers(p, a) || Covers(p, b) || (a < p.startLba && b > p.endLba)
  }

  ghost predicate Shares(p: Part, a: nat, b: nat) {
    exists l :: a <= l <= b && Covers(p, l)
  }

  /** For a well-formed partition the three tests are interval intersection. */
  lemma TouchesIsSharing(p: Part, a: nat, b: nat)
    requires a <= b && p.startLba <= p.endLba
    ensures Touches(p, a, b) <==> Shares(p, a, b)
    ensures Touches(p, a, b) <==> a <= p.endLba && p.startLba <= b
  {
    if Covers(p, a) {
      assert Shares(p, a, b);
    } else if Covers(p, b) {
      assert Shares(p, a, b);
    } else if a < p.startLba && b > p.endLba {
      assert Covers(p, p.startLba);
    }
  }

  ghost predicate Clear(s: Schem, ign: int, a: nat, b: nat) {
    forall i: nat :: Other(s, ign, i) ==> !Touches(s.table[i], a, b)
  }

  //////////////////////////////////////////////////////////////////////////////
  // Tables that keep their partitions apart
  //////////////////////////////////////////////////////////////////////////////

  predicate InRange(s: Schem, p: Part) {
    s.first <= p.startLba <= p.endLba <= s.last
  }

  predicate Apart(p: Part, q: Part) {
    p.endLba < q.startLba || q.endLba < p.startLba
  }

  /** Used partitions are well formed, in the usable range and pairwise disjoint. */
  ghost predicate Safe(s: Schem) {
    && s.first <= s.last
    && (forall i :: 0 <= i < |s.table| && IsUsed(s.kind, s.table[i]) ==> InRange(s, s.table[i]))
    && (forall i, j :: 0 <= i < j < |s.table| && IsUsed(s.kind, s.table[i]) && IsUsed(s.kind, s.table[j])
                       ==> Apart(s.table[i], s.table[j]))
  }

  /** The sector behind such a partition does not fit into 64 bits. */
  predicate Wraps(p: Part) {
    p.endLba == 0xFFFF_FFFF_FFFF_FFFF
  }

  /** The usable range stays below 2^63, so that "-1" is no sector. */
  predicate RangeSigned(s: Schem) {
    s.first < 0x8000_0000_0000_0000 && s.last < 0x8000_0000_0000_0000
  }

  /** The last sector that the start search may try as its first candidate or behind a partition. */
  function Top(s: Schem): u64 {
    if s.first <= s.last then s.last else s.first
  }

  /**
    From candidate to candidate behind the partition in conflict: the slot that
    leads beyond "top", or -1 if a free candidate comes first.
   */
  function LastHit(s: Schem, ign: int, cand: nat, top: nat): (r: int)
    ensures r != -1 ==> 0 <= r && Other(s, ign, r) && s.table[r].endLba >= top
    decreases if cand <= top then top + 1 - cand else 0
  {
    if cand > top then -1
    else
      var i := Conflict(s, ign, cand, 0);
      if i == -1 || s.table[i].endLba >= top then i else LastHit(s, ign, s.table[i].endLba + 1, top)
  }

  /** That partition ends at the last 64-bit sector: the search goes on at sector 0. */
  predicate SendsBack(s: Schem, ign: int, cand: nat, top: nat) {
    LastHit(s, ign, cand, top) != -1 && Wraps(s.table[LastHit(s, ign, cand, top)])
  }

  /** The search is not sent back. */
  predicate Searchable(s: Schem, ign: int) {
    RangeSigned(s) && !SendsBack(s, ign, s.first, Top(s))
  }

  //////////////////////////////////////////////////////////////////////////////
  // The iterations of the start search, on 64-bit sums
  //////////////////////////////////////////////////////////////////////////////

  /** The 64-bit sum with one. */
  function Next64(lba: u64): u64 {
    if lba == 0xFFFF_FFFF_FFFF_FFFF then 0 else lba + 1
  }

  datatype Search = Trying(lba: nat, noAlign: nat) | Done(r: int)

  /** The first slot from "from" on that covers the sector, or -1. */
  function Conflict(s: Schem, ign: int, lba: nat, from: nat): (r: int)
    requires from <= |s.table|
    ensures r == -1 ==> forall i: nat :: from <= i && Other(s, ign, i) ==> !Covers(s.table[i], lba)
    ensures r != -1 ==> from <= r && Other(s, ign, r) && Covers(s.table[r], lba)
    ensures forall i: nat :: from <= i < r && Other(s, ign, i) ==> !Covers(s.table[i], lba)
    decreases |s.table| - from
  {
    if from == |s.table| then -1
    else if Other(s, ign, from) && Covers(s.table[from], lba) then from
    else Conflict(s, ign, lba, from + 1)
  }

  /** A candidate, with the aligned sector above it if that is in range. */
  function TryFrom(s: Schem, ctx: ImgCtx, cand: nat): Search
    requires ctx.align > 0
  {
    if LbaAlign(ctx, cand, true) > s.last then Trying(cand, 0) else Trying(LbaAlign(ctx, cand, true), cand)
  }

  function SearchStep(s: Schem, ctx: ImgCtx, ign: int, lba: nat, noAlign: nat): Search
    requires ctx.align > 0
  {
    var i := Conflict(s, ign, lba, 0);
    if i == -1 then Done(lba)
    else if noAlign != 0 then Trying(noAlign, 0)
    else
      var next := Next64(s.table[i].endLba);
      if next > s.last then Done(-1) else TryFrom(s, ctx, next)
  }

  /** The state of the search after "k" iterations. */
  function SearchState(s: Schem, ctx: ImgCtx, ign: int, k: nat): Search
    requires ctx.align > 0
  {
    if k == 0 then TryFrom(s, ctx, s.first)
    else
      match SearchState(s, ctx, ign, k - 1)
      case Done(r) => Done(r)
      case Trying(lba, noAlign) => SearchStep(s, ctx, ign, lba, noAlign)
  }

  ghost predicate Reaches(s: Schem, ctx: ImgCtx, ign: int, st: Search)
    requires ctx.align > 0
  {
    exists k: nat :: SearchState(s, ctx, ign, k) == st
  }

  lemma ReachesStep(s: Schem, ctx: ImgCtx, ign: int, lba: nat, noAlign: nat)
    requires ctx.align > 0 && Reaches(s, ctx, ign, Trying(lba, noAlign))
    ensures Reaches(s, ctx, ign, SearchStep(s, ctx, ign, lba, noAlign))
  {
    var k: nat :| SearchState(s, ctx, ign, k) == Trying(lba, noAlign);
    assert SearchState(s, ctx, ign, k + 1) == SearchStep(s, ctx, ign, lba, noAlign);
  }

  /** What an iteration does to the state, given the conflict it finds. */
  lemma ReachesNext(s: Schem, ctx: ImgCtx, ign: int, lba: nat, noAlign: nat, i: int)
    requires ctx.align > 0 && Reaches(s, ctx, ign, Trying(lba, noAlign)) && i == Conflict(s, ign, lba, 0)
    ensures i == -1 ==> Reaches(s, ctx, ign, Done(lba))
    ensures i != -1 && noAlign != 0 ==> Reaches(s, ctx, ign, Trying(noAlign, 0))
    ensures i != -1 && noAlign == 0 && !Wraps(s.table[i]) ==>
              Reaches(s, ctx, ign, if s.table[i].endLba + 1 > s.last then Done(-1)
                                   else TryFrom(s, ctx, s.table[i].endLba + 1))
  {
    ReachesStep(s, ctx, ign, lba, noAlign);
  }

  lemma ReachesFirst(s: Schem, ctx: ImgCtx, ign: int)
    requires ctx.align > 0
    ensures Reaches(s, ctx, ign, TryFrom(s, ctx, s.first))
  {
    var start: nat := 0;
    assert SearchState(s, ctx, ign, start) == TryFrom(s, ctx, s.first);
  }

  //////////////////////////////////////////////////////////////////////////////
  // The end of a partition
  //////////////////////////////////////////////////////////////////////////////

  /** The bound the program has after the first "n" slots. */
  function Bound(s: Schem, ign: int, from: nat, n: nat): (b: nat)
    requires n <= |s.table|
  {
    if n == 0 then s.last
    else
      var b := Bound(s, ign, from, n - 1);
      var p := s.table[n - 1];
      if Other(s, ign, n - 1) && from < p.startLba < b then p.startLba - 1 else b
  }

  /** The last sector of the alignment segment before the bound. */
  function SegmentEnd(ctx: ImgCtx, b: nat): nat
    requires ctx.align > 0
  {
    var t := LbaAlign(ctx, b, false);
    if t > 0 && ctx.align > 1 then t - 1 else t
  }

  ghost function LastSector(s: Schem, ctx: ImgCtx, ign: int, from: nat): int
    requires ctx.align > 0
  {
    var b := Bound(s, ign, from, |s.table|);
    var t := SegmentEnd(ctx, b);
    if b < from then -1
    else if t >= from && Clear(s, ign, from, t) then t
    else b
  }

  //////////////////////////////////////////////////////////////////////////////
  // The program
  //////////////////////////////////////////////////////////////////////////////

  class Scheme {
    var kind: Kind
    var idI: u32
    var idGuid: Guid
    var first: u64
    var last: u64
    var table: seq<Part>

    constructor (kind: Kind)
      ensures Value() == Schem(kind, 0, ZERO_GUID, 0, 0, [])
    {
      this.kind := kind;
      idI, idGuid, first, last, table := 0, ZERO_GUID, 0, 0, [];
    }

    function Value(): Schem
      reads this
    {
      Schem(kind, idI, idGuid, first, last, table)
    }

    /** The first slot that overlaps a..b, or -1. */
    method FindOverlap(a: nat, b: nat, ign: int) returns (r: int)
      ensures r == -1 <==> Clear(Value(), ign, a, b)
      ensures r != -1 ==> 0 <= r < |table| && Other(Value(), ign, r) && Touches(table[r], a, b)
      ensures forall i :: 0 <= i < r && Other(Value(), ign, i) ==> !Touches(table[i], a, b)
    {
      for i := 0 to |table|
        invariant forall j :: 0 <= j < i && Other(Value(), ign, j) ==> !Touches(table[j], a, b)
      {
        if i == ign || !IsUsed(kind, table[i]) {
          continue;
        }
        var part := table[i];
        if a >= part.startLba && a <= part.endLba {
          return i;
        }
        if b >= part.startLba && b <= part.endLba {
          return i;
        }
        if a < part.startLba && b > part.endLba {
          return i;
        }
      }
      return -1;
    }

    /** The first slot whose use is as asked for, or -1. */
    method FindPartIndex(used: bool) returns (r: int)
      ensures r == -1 <==> forall i :: 0 <= i < |table| ==> IsUsed(kind, table[i]) != used
      ensures r != -1 ==> 0 <= r < |table| && IsUsed(kind, table[r]) == used
      ensures forall i :: 0 <= i < r ==> IsUsed(kind, table[i]) != used
    {
      for i := 0 to |table|
        invariant forall j :: 0 <= j < i ==> IsUsed(kind, table[j]) != used
      {
        if IsUsed(kind, table[i]) == used {
          return i;
        }
      }
      return -1;
    }

    /** The inner loop of FindStartSector: the first slot that covers the sector, or -1. */
    method FindConflict(lba: nat, ign: int) returns (r: int)
      ensures r == Conflict(Value(), ign, lba, 0)
      ensures r == -1 <==> Free(Value(), ign, lba)
      ensures r != -1 ==> 0 <= r && Other(Value(), ign, r) && Covers(table[r], lba)
    {
      for i := 0 to |table|
        invariant Conflict(Value(), ign, lba, 0) == Conflict(Value(), ign, lba, i)
      {
        if i == ign || !IsUsed(kind, table[i]) || lba < table[i].startLba || lba > table[i].endLba {
          continue;
        }
        return i;
      }
      return -1;
    }

    /**
      Each conflict either falls back from the aligned sector to the candidate
      below it or moves the candidate beyond the conflicting partition, whatever
      the table looks like.
     */
    method FindStartSector(ctx: ImgCtx, ign: int) returns (r: int)
      requires Ready(ctx) && Searchable(Value(), ign)
      ensures r == StartOffered(Value(), ctx, ign)
      ensures Reaches(Value(), ctx, ign, Done(r))
    {
      var noAlign: nat := first;
      var lba: nat := LbaAlign(ctx, noAlign, true);
      if lba > last {
        lba := noAlign;
        noAlign := 0;
      }
      ghost var cand: nat := first;
      ReachesFirst(Value(), ctx, ign);
      SearchFrom(Value(), ctx, ign, cand);
      var posChanged := true;
      while posChanged
        invariant Searching(Value(), ctx, ign, cand, lba, noAlign)
        invariant Reaches(Value(), ctx, ign, if posChanged then Trying(lba, noAlign) else Done(lba))
        invariant !posChanged ==> Free(Value(), ign, lba)
        invariant LastHit(Value(), ign, cand, Top(Value())) == LastHit(Value(), ign, first, Top(Value()))
        decreases if cand <= last then last + 1 - cand else 0, noAlign != 0, posChanged
      {
        var i := FindConflict(lba, ign);
        ReachesNext(Value(), ctx, ign, lba, noAlign, i);
        posChanged := i != -1;
        if posChanged {
          if noAlign != 0 {
            SearchFallBack(Value(), ctx, ign, cand, lba, noAlign);
            lba := noAlign;
            noAlign := 0;
          } else {
            SearchMove(Value(), ctx, ign, cand, i);
            SearchFits(Value(), ctx, ign, cand, i);
            noAlign := Next64(table[i].endLba);
            if noAlign > last {
              return -1;
            }
            cand := noAlign;
            lba := LbaAlign(ctx, noAlign, true);
            if lba > last {
              lba := noAlign;
              noAlign := 0;
            }
          }
        }
      }
      SearchFound(Value(), ctx, ign, cand, lba, noAlign);
      return lba;
    }

    method FindLastSector(ctx: ImgCtx, ign: int, from: nat) returns (r: int)
      requires Ready(ctx)
      ensures r == LastSector(Value(), ctx, ign, from)
    {
      var bound: nat := last;
      for i := 0 to |table|
        invariant bound == Bound(Value(), ign, from, i)
      {
        if i == ign || !IsUsed(kind, table[i]) {
          continue;
        }
        if table[i].startLba > from && table[i].startLba < bound {
          bound := table[i].startLba - 1;
        }
      }
      if bound < from {
        return -1;
      }
      var testEnd := LbaAlign(ctx, bound, false);
      if testEnd > 0 && ctx.align > 1 {
        testEnd := testEnd - 1;
      }
      if testEnd >= from {
        var overlap := FindOverlap(from, testEnd, ign);
        if overlap == -1 {
          return testEnd;
        }
      }
      return bound;
    }
  }

  /**
    The state of the start search: nothing below the candidate is free.  While
    "noAlign" holds the candidate, the aligned sector above it is being tried;
    while it is zero, the candidate itself is.
   */
  ghost predicate Searching(s: Schem, ctx: ImgCtx, ign: int, cand: nat, lba: nat, noAlign: nat)
    requires ctx.align > 0
  {
    && s.first <= cand && (cand <= s.last || cand == s.first)
    && NoneFree(s, ign, s.first, cand)
    && if noAlign != 0 then noAlign == cand && lba == LbaAlign(ctx, cand, true) <= s.last
       else lba == cand && (LbaAlign(ctx, cand, true) == cand || LbaAlign(ctx, cand, true) > s.last
                            || !Free(s, ign, LbaAlign(ctx, cand, true)))
  }

  /** A candidate is taken up with the aligned sector, if that is in range. */
  lemma SearchFrom(s: Schem, ctx: ImgCtx, ign: int, cand: nat)
    requires ctx.align > 0 && s.first <= cand && (cand <= s.last || cand == s.first)
    requires NoneFree(s, ign, s.first, cand)
    ensures var a := LbaAlign(ctx, cand, true);
            if a > s.last then Searching(s, ctx, ign, cand, cand, 0)
            else Searching(s, ctx, ign, cand, a, cand)
  {
    AlignUp(ctx, cand);
    if cand == 0 {
      MultiplesApart(ctx.align, cand, LbaAlign(ctx, cand, true));
    }
  }

  lemma SearchFallBack(s: Schem, ctx: ImgCtx, ign: int, cand: nat, lba: nat, noAlign: nat)
    requires ctx.align > 0 && Searching(s, ctx, ign, cand, lba, noAlign)
    requires noAlign != 0 && !Free(s, ign, lba)
    ensures Searching(s, ctx, ign, cand, noAlign, 0)
  {
  }

  /** The search is not sent back on its way. */
  lemma SearchFits(s: Schem, ctx: ImgCtx, ign: int, cand: nat, i: nat)
    requires ctx.align > 0 && Searchable(s, ign) && Searching(s, ctx, ign, cand, cand, 0)
    requires LastHit(s, ign, cand, Top(s)) == LastHit(s, ign, s.first, Top(s)) && i == Conflict(s, ign, cand, 0)
    ensures !Wraps(s.table[i])
    ensures s.table[i].endLba < s.last
            ==> LastHit(s, ign, s.table[i].endLba + 1, Top(s)) == LastHit(s, ign, s.first, Top(s))
  {
  }

  lemma SearchMove(s: Schem, ctx: ImgCtx, ign: int, cand: nat, i: nat)
    requires ctx.align > 0 && Searching(s, ctx, ign, cand, cand, 0)
    requires Other(s, ign, i) && Covers(s.table[i], cand)
    ensures var next := s.table[i].endLba + 1;
            if next <= s.last then
              var a := LbaAlign(ctx, next, true);
              if a > s.last then Searching(s, ctx, ign, next, next, 0) else Searching(s, ctx, ign, next, a, next)
            else
              && (s.first <= s.last ==> StartSector(s, ctx, ign) == -1)
              && (s.first > s.last ==> !Free(s, ign, s.first))
  {
    var next := s.table[i].endLba + 1;
    forall l | s.first <= l < next
      ensures !Free(s, ign, l)
    {
      if l >= cand {
        assert Covers(s.table[i], l);
      }
    }
    if next <= s.last {
      SearchFrom(s, ctx, ign, next);
    } else {
      LeastFreeUnique(s, ign, s.first, -1);
    }
  }

  /** A free sector that the search settles on is the one asked for. */
  lemma SearchFound(s: Schem, ctx: ImgCtx, ign: int, cand: nat, lba: nat, noAlign: nat)
    requires ctx.align > 0 && Searching(s, ctx, ign, cand, lba, noAlign) && Free(s, ign, lba)
    ensures s.first <= s.last ==> lba == StartSector(s, ctx, ign)
    ensures s.first > s.last ==> lba == s.first
  {
    AlignUp(ctx, cand);
    if s.first <= s.last {
      LeastFreeMeaning(s, ign, s.first);
      var lf := LeastFree(s, ign, s.first);
      assert cand <= lf <= lba;
      AlignUpBetween(ctx, cand, lf);
    }
  }
}
