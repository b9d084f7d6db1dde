/**
 Which TLB entries each invalidation takes away, entry by entry, and what a search can still find.
 */
module Invalidation {
  import opened Words
  import opened PageWalk
  import opened Tlb
  import opened SetVD
  import opened Rights

  /** An entry keeps everything but its E bit if `gone`, and everything otherwise. */
  predicate Loses(before: Entry, after: Entry, gone: bool) {
    after == Entry(before.e && !gone, before.asid, before.g, before.vppn, before.ps, before.lo0, before.lo1)
  }

  /** The pair of the entry, at its page size, holds the address. */
  predicate Maps(p: Params, i: nat, t: Entry, a: Word) {
    var ps := if i < 2048 then p.stlbPs else t.ps;
    ps >= 12 && a % TWO48 / Pow2(ps + 1) == t.vppn / Pow2(ps - 12)
  }

  lemma CoversMaps(p: Params, i: nat, t: Entry, a: Word)
    ensures Covers(t.vppn, EntryPs(p, i, t), a) == Maps(p, i, t, a)
  {
    hide Shr, Pow2;
    var ps := EntryPs(p, i, t);
    if ps >= 12 {
      ShrDiv(a % TWO48, ps + 1);
      ShrDiv(t.vppn, ps - 12);
    }
  }

  /** The five forms of INVTLB: all; by G; by ASID; by ASID and address; by address, global or of the ASID. */
  lemma InvtlbTakes(p: Params, tlb: seq<Entry>, g: bool, asid: nat, a: Word, i: nat)
    requires i < |tlb|
    ensures var t := tlb[i];
            var mine, shared, here := t.asid == asid, Bit(t.lo0, 6), Maps(p, i, t, a);
            && |InvalidateAll(tlb)| == |InvalidateG(tlb, g)| == |InvalidateAsid(tlb, asid)| == |tlb|
            && |InvalidatePageAsid(p, tlb, asid, a)| == |InvalidatePageAsidOrG(p, tlb, asid, a)| == |tlb|
            && Loses(t, InvalidateAll(tlb)[i], true)
            && Loses(t, InvalidateG(tlb, g)[i], shared == g)
            && Loses(t, InvalidateAsid(tlb, asid)[i], mine && !shared)
            && Loses(t, InvalidatePageAsid(p, tlb, asid, a)[i], mine && !shared && here)
            && Loses(t, InvalidatePageAsidOrG(p, tlb, asid, a)[i], (mine || shared) && here)
  {
    hide Covers, FlagG, Bit, Maps;
    LowFieldBits(tlb[i].lo0);
    CoversMaps(p, i, tlb[i], a);
  }

  /** TLBCLR and TLBFLUSH: the eight ways of one set of the STLB, or the whole MTLB; TLBCLR spares global entries and
      those of other address spaces. */
  lemma LineTakes(tlb: seq<Entry>, asid: nat, index: nat, i: nat)
    requires i < |tlb| && index < 2112
    ensures var line := if index < 2048 then i < 2048 && i % 256 == index % 256 else 2048 <= i < 2112;
            && |ClearLine(tlb, asid, index)| == |FlushLine(tlb, index)| == |tlb|
            && Loses(tlb[i], ClearLine(tlb, asid, index)[i], line && tlb[i].asid == asid && !Bit(tlb[i].lo0, 6))
            && Loses(tlb[i], FlushLine(tlb, index)[i], line)
  {
    hide FlagG, Bit;
    LowFieldBits(tlb[i].lo0);
  }

  /** The set of an address: the eight bits above the page pair. */
  lemma SetOfAddress(p: Params, a: Word)
    ensures SetIndex(p, a) == a % TWO48 / Pow2(p.stlbPs + 1) % 256
  {
    hide Shr, Low, Pow2;
    var x := Shr(a % TWO48, p.stlbPs + 1);
    ShrDiv(a % TWO48, p.stlbPs + 1);
    LowMod(x, 8);
    EighthPower();
  }

  lemma EighthPower()
    ensures Pow2(8) == 256
  {
  }

  /** After the set of an address and the MTLB are flushed, a search for the address misses, in every address space. */
  lemma FlushedMisses(p: Params, tlb: seq<Entry>, index: nat, mtlb: nat, asid: nat, a: Word)
    requires IsTable(tlb) && index < STLB <= mtlb < TLB_MAX && index % 256 == a % TWO48 / Pow2(p.stlbPs + 1) % 256
    ensures Search(p, FlushLine(FlushLine(tlb, index), mtlb), asid, a).Miss?
  {
    hide Search, Covers, SetIndex, Pow2;
    SetOfAddress(p, a);
    var tlb' := FlushLine(FlushLine(tlb, index), mtlb);
    SearchResult(p, tlb', asid, a);
  }

  /** A search in the flushed part finds nothing; elsewhere it is as it was. */
  lemma FlushedPart(p: Params, tlb: seq<Entry>, index: nat, asid: nat, a: Word)
    requires IsTable(tlb) && index < TLB_MAX
    ensures var tlb' := FlushLine(tlb, index);
            && (index < STLB && index % 256 == a % TWO48 / Pow2(p.stlbPs + 1) % 256 ==> FindStlb(p, tlb', asid, a, 0).Miss?)
            && (index >= STLB ==> FindMtlb(p, tlb', asid, a, STLB).Miss?)
  {
    hide FindStlb, FindMtlb, Covers, SetIndex, Pow2;
    SetOfAddress(p, a);
    var tlb' := FlushLine(tlb, index);
    FindStlbResult(p, tlb', asid, a, 0);
    FindMtlbResult(p, tlb', asid, a, STLB);
  }

  /** After INVTLB by ASID, what that address space still matches is global in its even half; after INVTLB of the
      global entries, it matches only its own. */
  lemma LeftForAsid(p: Params, tlb: seq<Entry>, asid: nat, a: Word, i: nat)
    requires Sane(p, tlb) && i < TLB_MAX
    ensures Hits(p, i, InvalidateAsid(tlb, asid)[i], asid, a) ==> Bit(tlb[i].lo0, 6)
    ensures Hits(p, i, InvalidateG(tlb, true)[i], asid, a) ==> tlb[i].asid == asid && !Bit(tlb[i].lo0, 6)
    ensures Hits(p, i, InvalidateG(tlb, false)[i], asid, a) ==> Bit(tlb[i].lo0, 6)
  {
    hide Covers, FlagG, Bit;
    LowFieldBits(tlb[i].lo0);
    assert SaneEntry(p, i, tlb[i]);
  }
}
