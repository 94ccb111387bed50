/**
  When the start search ends, and when it finds what it should, on tables that
  other tools have made.  The sector behind a partition is a 64-bit sum: behind
  one that ends at the last 64-bit sector the search goes on at sector 0
  (libs/libpartman/src/schem.c:411-420).
 */
module SearchEnds {
  import opened Words
  import opened Guids
  import opened ImgCtxs
  import opened Schemes
  import opened SectorSearch
  import opened GptStore
  import opened GptTheorems
  import opened GptScheme
  import M = MbrScheme

  ghost predicate Ends(s: Schem, ctx: ImgCtx, ign: int)
    requires ctx.align > 0
  {
    exists r :: Reaches(s, ctx, ign, Done(r))
  }

  /** A sector in lo..hi outside every other partition. */
  ghost predicate FreeFrom(s: Schem, ign: int, lo: nat, hi: nat) {
    exists l: nat :: lo <= l <= hi && Free(s, ign, l)
  }

  //////////////////////////////////////////////////////////////////////////////
  // Candidates
  //////////////////////////////////////////////////////////////////////////////

  /** A partition that covers the first of some sectors hides all up to its end. */
  lemma FreeBehind(s: Schem, ign: int, i: nat, lo: nat, hi: nat)
    requires Other(s, ign, i) && Covers(s.table[i], lo)
    ensures FreeFrom(s, ign, lo, hi) <==> FreeFrom(s, ign, s.table[i].endLba + 1, hi)
  {
    forall l: nat | lo <= l <= s.table[i].endLba
      ensures !Free(s, ign, l)
    {
      assert Covers(s.table[i], l);
    }
  }

  /** The candidates come to a free sector exactly if there is one. */
  lemma {:induction false} LastHitIff(s: Schem, ign: int, cand: nat, top: nat)
    requires cand <= top
    ensures LastHit(s, ign, cand, top) == -1 <==> FreeFrom(s, ign, cand, top)
    decreases top - cand
  {
    var i := Conflict(s, ign, cand, 0);
    if i == -1 {
      assert Free(s, ign, cand);
    } else {
      FreeBehind(s, ign, i, cand, top);
      if s.table[i].endLba < top {
        LastHitIff(s, ign, s.table[i].endLba + 1, top);
      }
    }
  }

  lemma Iterate(s: Schem, ctx: ImgCtx, ign: int, lba: nat, noAlign: nat) returns (i: int)
    requires ctx.align > 0 && Reaches(s, ctx, ign, Trying(lba, noAlign))
    ensures i == Conflict(s, ign, lba, 0) && (i == -1 <==> Free(s, ign, lba))
    ensures i == -1 ==> Reaches(s, ctx, ign, Done(lba))
    ensures i != -1 && noAlign != 0 ==> Reaches(s, ctx, ign, Trying(noAlign, 0))
    ensures i != -1 && noAlign == 0 && Next64(s.table[i].endLba) > s.last ==> Reaches(s, ctx, ign, Done(-1))
    ensures i != -1 && noAlign == 0 && Next64(s.table[i].endLba) <= s.last
            ==> Reaches(s, ctx, ign, TryFrom(s, ctx, Next64(s.table[i].endLba)))
  {
    i := Conflict(s, ign, lba, 0);
    ReachesStep(s, ctx, ign, lba, noAlign);
  }

  /** A candidate is tried itself, or behind the aligned sector above it. */
  lemma TryFromIs(s: Schem, ctx: ImgCtx, cand: nat)
    requires ctx.align > 0
    ensures var st := TryFrom(s, ctx, cand);
            st.Trying? && (st == Trying(cand, 0) || (cand != 0 && st.noAlign == cand && cand <= st.lba <= s.last))
  {
    AlignUp(ctx, cand);
    if cand == 0 {
      AlignZero(ctx, cand);
    }
  }

  /** The search ends with a free sector from "lo" on. */
  ghost predicate Finds(s: Schem, ctx: ImgCtx, ign: int, lo: nat)
    requires ctx.align > 0
  {
    exists r: nat :: lo <= r <= s.last && Free(s, ign, r) && Reaches(s, ctx, ign, Done(r))
  }

  lemma Candidate(s: Schem, ctx: ImgCtx, ign: int, cand: nat)
    requires ctx.align > 0 && cand <= s.last && Reaches(s, ctx, ign, TryFrom(s, ctx, cand))
    ensures Reaches(s, ctx, ign, Trying(cand, 0)) || Finds(s, ctx, ign, cand)
  {
    TryFromIs(s, ctx, cand);
    var st := TryFrom(s, ctx, cand);
    if st != Trying(cand, 0) {
      var i := Iterate(s, ctx, ign, st.lba, cand);
    }
  }

  lemma FindsFree(s: Schem, ctx: ImgCtx, ign: int, lo: nat)
    requires ctx.align > 0 && Finds(s, ctx, ign, lo)
    ensures FreeFrom(s, ign, lo, s.last)
  {
  }

  /** Where a chain of candidates leads: to a free sector, to "nothing free", or back to sector 0. */
  ghost predicate Leads(s: Schem, ctx: ImgCtx, ign: int, cand: nat)
    requires ctx.align > 0
  {
    if FreeFrom(s, ign, cand, s.last) then Finds(s, ctx, ign, cand)
    else if SendsBack(s, ign, cand, s.last) then Reaches(s, ctx, ign, TryFrom(s, ctx, 0))
    else Reaches(s, ctx, ign, Done(-1))
  }

  lemma Chain(s: Schem, ctx: ImgCtx, ign: int, cand: nat)
    requires ctx.align > 0 && RangeSigned(s) && cand <= s.last && Reaches(s, ctx, ign, TryFrom(s, ctx, cand))
    ensures Leads(s, ctx, ign, cand) && (FreeFrom(s, ign, cand, s.last) ==> !SendsBack(s, ign, cand, s.last))
  {
    ChainLeads(s, ctx, ign, cand);
    LastHitIff(s, ign, cand, s.last);
  }

  lemma {:induction false} ChainLeads(s: Schem, ctx: ImgCtx, ign: int, cand: nat)
    requires ctx.align > 0 && RangeSigned(s) && cand <= s.last && Reaches(s, ctx, ign, TryFrom(s, ctx, cand))
    ensures Leads(s, ctx, ign, cand)
    decreases s.last - cand
  {
    Candidate(s, ctx, ign, cand);
    if Finds(s, ctx, ign, cand) {
      FindsFree(s, ctx, ign, cand);
    } else {
      var i := Iterate(s, ctx, ign, cand, 0);
      if i == -1 || s.table[i].endLba >= s.last {
        LeadsAtOnce(s, ctx, ign, cand, i);
      } else {
        ChainLeads(s, ctx, ign, s.table[i].endLba + 1);
        LeadsOn(s, ctx, ign, cand, i);
      }
    }
  }

  /** A candidate that is free, or whose conflict is the last one. */
  lemma LeadsAtOnce(s: Schem, ctx: ImgCtx, ign: int, cand: nat, i: int)
    requires ctx.align > 0 && RangeSigned(s) && cand <= s.last && i == Conflict(s, ign, cand, 0)
    requires i == -1 ==> Free(s, ign, cand) && Reaches(s, ctx, ign, Done(cand))
    requires i != -1 ==> s.table[i].endLba >= s.last
                         && (Next64(s.table[i].endLba) > s.last ==> Reaches(s, ctx, ign, Done(-1)))
                         && (Next64(s.table[i].endLba) <= s.last
                             ==> Reaches(s, ctx, ign, TryFrom(s, ctx, Next64(s.table[i].endLba))))
    ensures Leads(s, ctx, ign, cand)
  {
    if i != -1 {
      FreeBehind(s, ign, i, cand, s.last);
    } else {
      assert Finds(s, ctx, ign, cand);
    }
  }

  /** A candidate leads where the next one does. */
  lemma LeadsOn(s: Schem, ctx: ImgCtx, ign: int, cand: nat, i: int)
    requires ctx.align > 0 && cand <= s.last && i == Conflict(s, ign, cand, 0) && i != -1
    requires s.table[i].endLba < s.last && Leads(s, ctx, ign, s.table[i].endLba + 1)
    ensures Leads(s, ctx, ign, cand)
  {
    FreeBehind(s, ign, i, cand, s.last);
  }

  //////////////////////////////////////////////////////////////////////////////
  // Never
  //////////////////////////////////////////////////////////////////////////////

  /** A state whose chain of candidates is sent back. */
  ghost predicate Doomed(s: Schem, ctx: ImgCtx, ign: int, st: Search, c: nat)
    requires ctx.align > 0
  {
    c <= s.last && SendsBack(s, ign, c, s.last) && (st == TryFrom(s, ctx, c) || st == Trying(c, 0))
  }

  lemma DoomedStep(s: Schem, ctx: ImgCtx, ign: int, st: Search, c: nat) returns (d: nat)
    requires ctx.align > 0 && RangeSigned(s) && Doomed(s, ctx, ign, st, c) && SendsBack(s, ign, 0, s.last)
    ensures st.Trying? && Doomed(s, ctx, ign, SearchStep(s, ctx, ign, st.lba, st.noAlign), d)
  {
    TryFromIs(s, ctx, c);
    LastHitIff(s, ign, c, s.last);
    assert !Free(s, ign, st.lba);
    if st.noAlign != 0 {
      d := c;
    } else {
      var i := Conflict(s, ign, c, 0);
      d := Next64(s.table[i].endLba);
    }
  }

  /** Without a usable range the first sector is tried alone. */
  lemma NoRange(s: Schem, ctx: ImgCtx, ign: int)
    requires ctx.align > 0 && RangeSigned(s) && s.first > s.last
    ensures var i := Conflict(s, ign, s.first, 0);
            && TryFrom(s, ctx, s.first) == Trying(s.first, 0)
            && LastHit(s, ign, s.first, Top(s)) == i
            && SearchStep(s, ctx, ign, s.first, 0)
               == if i == -1 then Done(s.first) else if Wraps(s.table[i]) then TryFrom(s, ctx, 0) else Done(-1)
  {
    AlignUp(ctx, s.first);
  }

  lemma {:induction false} DoomedStates(s: Schem, ctx: ImgCtx, ign: int, k: nat) returns (c: nat)
    requires ctx.align > 0 && RangeSigned(s) && (s.first <= s.last || k > 0)
    requires SendsBack(s, ign, s.first, Top(s)) && SendsBack(s, ign, 0, s.last)
    ensures Doomed(s, ctx, ign, SearchState(s, ctx, ign, k), c)
  {
    if s.first > s.last && k == 1 {
      NoRange(s, ctx, ign);
      assert SearchState(s, ctx, ign, k - 1) == TryFrom(s, ctx, s.first);
      c := 0;
    } else if k == 0 {
      c := s.first;
    } else {
      c := DoomedStates(s, ctx, ign, k - 1);
      c := DoomedStep(s, ctx, ign, SearchState(s, ctx, ign, k - 1), c);
    }
  }

  /** Sent back twice, the search never ends. */
  lemma NeverEnds(s: Schem, ctx: ImgCtx, ign: int)
    requires ctx.align > 0 && RangeSigned(s)
    requires SendsBack(s, ign, s.first, Top(s)) && SendsBack(s, ign, 0, s.last)
    ensures !Ends(s, ctx, ign)
  {
    forall r, k: nat
      ensures SearchState(s, ctx, ign, k) != Done(r)
    {
      if s.first <= s.last || k > 0 {
        var c := DoomedStates(s, ctx, ign, k);
        TryFromIs(s, ctx, c);
      }
    }
  }

  //////////////////////////////////////////////////////////////////////////////
  // Once
  //////////////////////////////////////////////////////////////////////////////

  lemma {:induction false} DoneStays(s: Schem, ctx: ImgCtx, ign: int, j: nat, k: nat, r: int)
    requires ctx.align > 0 && j <= k && SearchState(s, ctx, ign, j) == Done(r)
    ensures SearchState(s, ctx, ign, k) == Done(r)
  {
    if j < k {
      DoneStays(s, ctx, ign, j, k - 1, r);
    }
  }

  /** A search has one result. */
  lemma DoneOnce(s: Schem, ctx: ImgCtx, ign: int, q: int, r: int)
    requires ctx.align > 0 && Reaches(s, ctx, ign, Done(q)) && Reaches(s, ctx, ign, Done(r))
    ensures q == r
  {
    var j: nat :| SearchState(s, ctx, ign, j) == Done(q);
    var k: nat :| SearchState(s, ctx, ign, k) == Done(r);
    if j <= k {
      DoneStays(s, ctx, ign, j, k, q);
    } else {
      DoneStays(s, ctx, ign, k, j, r);
    }
  }

  //////////////////////////////////////////////////////////////////////////////
  // Exactly
  //////////////////////////////////////////////////////////////////////////////

  /** The first chain of candidates. */
  lemma FirstChain(s: Schem, ctx: ImgCtx, ign: int)
    requires ctx.align > 0 && RangeSigned(s)
    ensures SendsBack(s, ign, s.first, Top(s)) ==> Reaches(s, ctx, ign, TryFrom(s, ctx, 0))
    ensures !SendsBack(s, ign, s.first, Top(s)) ==> Ends(s, ctx, ign)
    ensures SendsBack(s, ign, s.first, Top(s)) ==> StartOffered(s, ctx, ign) == -1
  {
    ReachesFirst(s, ctx, ign);
    if s.first <= s.last {
      Chain(s, ctx, ign, s.first);
      LastHitIff(s, ign, s.first, s.last);
      StartIsFree(s, ctx, ign);
    } else {
      NoRange(s, ctx, ign);
      ReachesStep(s, ctx, ign, s.first, 0);
    }
  }

  /** It ends if and only if the candidates from the first usable sector, or those from 0, are not sent back. */
  lemma SearchEndsIff(s: Schem, ctx: ImgCtx, ign: int)
    requires ctx.align > 0 && RangeSigned(s)
    ensures Ends(s, ctx, ign) <==> !SendsBack(s, ign, s.first, Top(s)) || !SendsBack(s, ign, 0, s.last)
  {
    FirstChain(s, ctx, ign);
    if SendsBack(s, ign, s.first, Top(s)) {
      if SendsBack(s, ign, 0, s.last) {
        NeverEnds(s, ctx, ign);
      } else {
        Chain(s, ctx, ign, 0);
      }
    }
  }

  /** From a candidate of the search, what it should find is found. */
  lemma {:induction false} FindsFrom(s: Schem, ctx: ImgCtx, ign: int, cand: nat)
    requires ctx.align > 0 && Searchable(s, ign) && s.first <= cand <= s.last
    requires LastHit(s, ign, cand, Top(s)) == LastHit(s, ign, s.first, Top(s))
    requires NoneFree(s, ign, s.first, cand) && Reaches(s, ctx, ign, TryFrom(s, ctx, cand))
    ensures Reaches(s, ctx, ign, Done(StartSector(s, ctx, ign)))
    decreases s.last - cand, 1
  {
    SearchFrom(s, ctx, ign, cand);
    var st := TryFrom(s, ctx, cand);
    if st.noAlign == 0 {
      FindsCandidate(s, ctx, ign, cand);
    } else {
      var i := Iterate(s, ctx, ign, st.lba, cand);
      if i == -1 {
        SearchFound(s, ctx, ign, cand, st.lba, cand);
      } else {
        SearchFallBack(s, ctx, ign, cand, st.lba, cand);
        FindsCandidate(s, ctx, ign, cand);
      }
    }
  }

  lemma {:induction false} FindsCandidate(s: Schem, ctx: ImgCtx, ign: int, cand: nat)
    requires ctx.align > 0 && Searchable(s, ign) && s.first <= cand <= s.last
    requires LastHit(s, ign, cand, Top(s)) == LastHit(s, ign, s.first, Top(s))
    requires Searching(s, ctx, ign, cand, cand, 0) && Reaches(s, ctx, ign, Trying(cand, 0))
    ensures Reaches(s, ctx, ign, Done(StartSector(s, ctx, ign)))
    decreases s.last - cand, 0
  {
    var i := Iterate(s, ctx, ign, cand, 0);
    if i == -1 {
      SearchFound(s, ctx, ign, cand, cand, 0);
    } else {
      SearchMove(s, ctx, ign, cand, i);
      SearchFits(s, ctx, ign, cand, i);
      if s.table[i].endLba + 1 <= s.last {
        MovedPast(s, ign, cand, i);
        FindsFrom(s, ctx, ign, s.table[i].endLba + 1);
      }
    }
  }

  lemma MovedPast(s: Schem, ign: int, cand: nat, j: nat)
    requires Other(s, ign, j) && Covers(s.table[j], cand) && NoneFree(s, ign, s.first, cand)
    ensures NoneFree(s, ign, s.first, s.table[j].endLba + 1)
  {
    forall l | s.first <= l < s.table[j].endLba + 1
      ensures !Free(s, ign, l)
    {
      if l >= cand {
        assert Covers(s.table[j], l);
      }
    }
  }

  /**
    It finds what it should if and only if it is not sent back, or is sent back
    once to find nothing from sector 0 either.
   */
  lemma SearchRightIff(s: Schem, ctx: ImgCtx, ign: int)
    requires ctx.align > 0 && RangeSigned(s)
    ensures Reaches(s, ctx, ign, Done(StartOffered(s, ctx, ign)))
            <==> Searchable(s, ign) || (!SendsBack(s, ign, 0, s.last) && !FreeFrom(s, ign, 0, s.last))
  {
    ReachesFirst(s, ctx, ign);
    if !Searchable(s, ign) {
      SentBack(s, ctx, ign);
    } else if s.first <= s.last {
      FindsFrom(s, ctx, ign, s.first);
    } else {
      NoRange(s, ctx, ign);
      ReachesStep(s, ctx, ign, s.first, 0);
    }
  }

  lemma SentBack(s: Schem, ctx: ImgCtx, ign: int)
    requires ctx.align > 0 && RangeSigned(s) && SendsBack(s, ign, s.first, Top(s))
    ensures StartOffered(s, ctx, ign) == -1
    ensures Reaches(s, ctx, ign, Done(-1)) <==> !SendsBack(s, ign, 0, s.last) && !FreeFrom(s, ign, 0, s.last)
  {
    FirstChain(s, ctx, ign);
    if SendsBack(s, ign, 0, s.last) {
      NeverEnds(s, ctx, ign);
    } else {
      Chain(s, ctx, ign, 0);
      if FreeFrom(s, ign, 0, s.last) {
        var r: nat :| r <= s.last && Free(s, ign, r) && Reaches(s, ctx, ign, Done(r));
        if Reaches(s, ctx, ign, Done(-1)) {
          DoneOnce(s, ctx, ign, r, -1);
        }
      }
    }
  }

  /** Sent back, with a free sector below the usable range, it offers a sector below the usable range. */
  lemma OffersBelow(s: Schem, ctx: ImgCtx, ign: int)
    requires ctx.align > 0 && RangeSigned(s)
    requires SendsBack(s, ign, s.first, Top(s)) && FreeFrom(s, ign, 0, s.last)
    ensures exists r: nat :: r < s.first && Free(s, ign, r) && Reaches(s, ctx, ign, Done(r))
  {
    LastHitIff(s, ign, s.first, Top(s));
    FirstChain(s, ctx, ign);
    Chain(s, ctx, ign, 0);
    var r: nat :| r <= s.last && Free(s, ign, r) && Reaches(s, ctx, ign, Done(r));
    assert r < s.first;
  }

  //////////////////////////////////////////////////////////////////////////////
  // Conditions that are easy to read
  //////////////////////////////////////////////////////////////////////////////

  /** With a free sector in range, or without a partition over its end that wraps, nothing is sent back. */
  lemma SearchableIf(s: Schem, ign: int)
    requires RangeSigned(s)
    requires FreeFrom(s, ign, s.first, Top(s))
             || forall i: nat :: Other(s, ign, i) && s.table[i].endLba >= Top(s) ==> !Wraps(s.table[i])
    ensures Searchable(s, ign)
  {
    LastHitIff(s, ign, s.first, Top(s));
  }

  /** If partitions over the last usable sector all wrap, a full range sends back. */
  lemma SendsBackIf(s: Schem, ign: int, cand: nat)
    requires cand <= s.last && !FreeFrom(s, ign, cand, s.last)
    requires forall i: nat :: Other(s, ign, i) && Covers(s.table[i], s.last) ==> Wraps(s.table[i])
    ensures SendsBack(s, ign, cand, s.last)
  {
    LastHitIff(s, ign, cand, s.last);
    LastHitCovers(s, ign, cand, s.last);
  }

  lemma {:induction false} LastHitCovers(s: Schem, ign: int, cand: nat, top: nat)
    requires cand <= top && LastHit(s, ign, cand, top) != -1
    ensures Covers(s.table[LastHit(s, ign, cand, top)], top)
    decreases top - cand
  {
    var i := Conflict(s, ign, cand, 0);
    if s.table[i].endLba < top {
      LastHitCovers(s, ign, s.table[i].endLba + 1, top);
    }
  }

  //////////////////////////////////////////////////////////////////////////////
  // Tables on which it goes wrong
  //////////////////////////////////////////////////////////////////////////////

  /** An MBR entry is loaded as such a partition if and only if it has no size and starts at sector 0. */
  lemma ZeroEntryWrapsIff(p: M.MbrPart)
    requires p.typ != 0 && p.startLba <= M.MAX_LBA && p.szLba <= M.MAX_LBA
    ensures Wraps(M.PartOfMbr(p)) <==> p.startLba == 0 && p.szLba == 0
  {
  }

  /** With such an entry alone in the MBR, no start sector is ever found for another slot. */
  lemma ZeroEntryNeverEnds(ctx: ImgCtx, m: M.Mbr, i: nat, ign: int)
    requires Ready(ctx) && i < M.MBR_PARTS && i != ign
    requires m.parts[i].typ != 0 && m.parts[i].startLba == 0 && m.parts[i].szLba == 0
    requires forall j :: 0 <= j < M.MBR_PARTS && j != i ==> m.parts[j].typ == 0
    ensures !Ends(M.SchemOfMbr(m, ctx), ctx, ign)
  {
    var s := M.SchemOfMbr(m, ctx);
    M.NewMbrUsable(ctx, m.diskSig);
    ZeroEntryWrapsIff(m.parts[i]);
    assert s.table[i] == M.PartOfMbr(m.parts[i]);
    forall l: nat | l <= s.last
      ensures !Free(s, ign, l)
    {
      assert Other(s, ign, i) && Covers(s.table[i], l);
    }
    SendsBackIf(s, ign, s.first);
    SendsBackIf(s, ign, 0);
    NeverEnds(s, ctx, ign);
  }

  /** A GPT scheme with one partition from its first usable sector to the last 64-bit one. */
  function TooLong(id: Guid, p: Part): Schem {
    Schem(Gpt, 0, id, 40, 900, [p.(startLba := 40, endLba := 0xFFFF_FFFF_FFFF_FFFF), NoPart()])
  }

  /** In it the search for the second slot offers a sector below the usable range. */
  lemma TooLongOffersBelow(ctx: ImgCtx, id: Guid, p: Part)
    requires ctx.align > 0 && IsUsed(Gpt, p)
    ensures exists r: nat :: r < 40 && Reaches(TooLong(id, p), ctx, 1, Done(r))
  {
    var s := TooLong(id, p);
    var ign, slot, zero: nat := 1, 0, 0;
    forall l: nat | 40 <= l <= 900
      ensures !Free(s, ign, l)
    {
      assert Other(s, ign, slot) && Covers(s.table[slot], l);
    }
    assert Free(s, ign, zero);
    SendsBackIf(s, ign, s.first);
    OffersBelow(s, ctx, ign);
  }

  /** And there are images that load as such a scheme. */
  lemma TooLongLoads(ctx: ImgCtx, img: seq<byte>, id: Guid, unique: Guid)
    requires Validates(ctx) && |img| == ctx.imgSz
    ensures var s := TooLong(id, NewGptPart(unique));
            IsUsed(Gpt, NewGptPart(unique)) && Saveable(s) && LoadSchem(ctx, Save(ctx, img, s)) == LoadOk(s)
  {
    TooLongStorable(id, unique);
    RoundTripIff(ctx, img, TooLong(id, NewGptPart(unique)));
  }

  lemma TooLongStorable(id: Guid, unique: Guid)
    ensures var s := TooLong(id, NewGptPart(unique));
            IsUsed(Gpt, NewGptPart(unique)) && Storable(s) && Cleaned(s) == s
  {
    var s := TooLong(id, NewGptPart(unique));
    assert DefaultType().timeLo != ZERO_GUID.timeLo;
    NoNameChained();
    assert Cleaned(s).table == s.table;
  }
}
