/**
 The TLB: a 2048-entry, 8-way set-indexed part with one page size (STLB) and a
 64-entry part with a page size per entry (MTLB), with its search, refill and
 invalidation operations as functions on the table.
 */
module Tlb {
  import opened Words
  import opened PageWalk

  const STLB: int := 2048
  const TLB_MAX: int := 2112

  /** One entry: the fields of tlb_misc and the two leaf words of the page pair. */
  datatype Entry = Entry(e: bool, asid: nat, g: bool, vppn: nat, ps: nat, lo0: Word, lo1: Word)

  /** Registers that stay constant over a run: CSR.PWCL/PWCH, PRCFG2 and STLBPS.PS. */
  datatype Params = Params(walk: WalkConfig, prcfg2: Word, stlbPs: nat)

  predicate CheckPs(prcfg2: Word, ps: nat) { ps < 64 && Shr(prcfg2, ps) % 2 == 1 }

  // ---- Access rights ---------------------------------------------------------------

  datatype Access = Fetch | Load | Store

  datatype Ret =
    | Match(phys: nat, write: bool, exec: bool)
    | BadAddr
    | NoMatch
    | Invalid
    | FetchInhibited
    | ReadInhibited
    | Privilege
    | Dirty
    | NeedsSetD

  /** Frame of a leaf word for pages of 2^ps bytes, bits below the page size dropped. */
  function Frame(w: Word, ps: nat): nat
    requires ps >= 12
  {
    LowLe(Ppn(w), ps - 12);
    (Ppn(w) - Low(Ppn(w), ps - 12)) * 0x1000
  }

  /** The access checks on a leaf word, in their order; `phys` is the address if all pass. */
  function Decide(w: Word, access: Access, plv: nat, setVD: bool, phys: nat): Ret {
    if setVD && access.Store? && FlagW(w) && !FlagD(w) then NeedsSetD
    else if !FlagV(w) then Invalid
    else if access.Fetch? && FlagNX(w) then FetchInhibited
    else if access.Load? && FlagNR(w) then ReadInhibited
    else if (!FlagRplv(w) && plv > Plv(w)) || (FlagRplv(w) && plv != Plv(w)) then Privilege
    else if access.Store? && !FlagD(w) then Dirty
    else Match(phys, FlagD(w), !FlagNX(w))
  }

  predicate OddPage(a: Word, ps: nat) { Shr(a, ps) % 2 == 1 }

  /** loongarch_map_tlb_entry: the half of the pair that `a` selects. */
  function MapPair(lo0: Word, lo1: Word, ps: nat, a: Word, access: Access, plv: nat, setVD: bool): Ret
    requires ps >= 12
  {
    var w := if OddPage(a, ps) then lo1 else lo0;
    Decide(w, access, plv, setVD, BitOr(Frame(w, ps), Low(a, ps)))
  }

  // ---- Search ----------------------------------------------------------------------

  function EntryPs(p: Params, i: nat, t: Entry): nat { if i >= STLB then t.ps else p.stlbPs }

  /** The tag covers the address.  A page size below 12 would shift by a negative count; no
      such entry is ever filled. */
  predicate Covers(vppn: nat, ps: nat, a: Word) { ps >= 12 && PairNumber(a, ps) == Shr(vppn, ps - 12) }

  predicate Hits(p: Params, i: nat, t: Entry, asid: nat, a: Word) {
    t.e && (t.g || t.asid == asid) && Covers(t.vppn, EntryPs(p, i, t), a)
  }

  function SetIndex(p: Params, a: Word): nat
    ensures SetIndex(p, a) < 256
  {
    ShrLow(Shr(a % TWO48, p.stlbPs + 1), 8);
    Low(Shr(a % TWO48, p.stlbPs + 1), 8)
  }

  datatype Found = Miss | At(index: nat)

  predicate IsTable(tlb: seq<Entry>) { |tlb| == TLB_MAX }

  /** No entry is valid, as when the emulator starts. */
  ghost predicate Empty(tlb: seq<Entry>) { IsTable(tlb) && forall i: nat :: i < |tlb| ==> !tlb[i].e }

  function FindStlb(p: Params, tlb: seq<Entry>, asid: nat, a: Word, way: nat): Found
    requires IsTable(tlb) && way <= 8
    decreases 8 - way
  {
    if way == 8 then Miss
    else
      var i := way * 256 + SetIndex(p, a);
      if Hits(p, i, tlb[i], asid, a) then At(i) else FindStlb(p, tlb, asid, a, way + 1)
  }

  function FindMtlb(p: Params, tlb: seq<Entry>, asid: nat, a: Word, i: nat): Found
    requires IsTable(tlb) && i <= TLB_MAX
    decreases TLB_MAX - i
  {
    if i == TLB_MAX then Miss
    else if Hits(p, i, tlb[i], asid, a) then At(i)
    else FindMtlb(p, tlb, asid, a, i + 1)
  }

  function Search(p: Params, tlb: seq<Entry>, asid: nat, a: Word): Found
    requires IsTable(tlb)
  {
    var s := FindStlb(p, tlb, asid, a, 0);
    if s.At? then s else FindMtlb(p, tlb, asid, a, STLB)
  }

  /** Entries the search looks at. */
  predicate Looked(p: Params, a: Word, i: nat) {
    i < TLB_MAX && (i < STLB ==> i % 256 == SetIndex(p, a))
  }

  ghost predicate AtMostOneHit(p: Params, tlb: seq<Entry>, asid: nat, a: Word)
    requires IsTable(tlb)
  {
    forall i: nat, j: nat :: i < TLB_MAX && j < TLB_MAX && i != j && Hits(p, i, tlb[i], asid, a)
                             ==> !Hits(p, j, tlb[j], asid, a)
  }

  lemma {:induction false} FindStlbResult(p: Params, tlb: seq<Entry>, asid: nat, a: Word, way: nat)
    requires IsTable(tlb) && way <= 8
    ensures var r := FindStlb(p, tlb, asid, a, way);
            && (r.At? ==> r.index < STLB && Looked(p, a, r.index) && Hits(p, r.index, tlb[r.index], asid, a))
            && (r.Miss? ==> forall i: nat :: way * 256 <= i < STLB && Looked(p, a, i) ==> !Hits(p, i, tlb[i], asid, a))
    decreases 8 - way
  {
    hide Hits, Low;
    if way < 8 {
      FindStlbResult(p, tlb, asid, a, way + 1);
    }
  }

  lemma {:induction false} FindMtlbResult(p: Params, tlb: seq<Entry>, asid: nat, a: Word, k: nat)
    requires IsTable(tlb) && STLB <= k <= TLB_MAX
    ensures var r := FindMtlb(p, tlb, asid, a, k);
            && (r.At? ==> k <= r.index < TLB_MAX && Hits(p, r.index, tlb[r.index], asid, a))
            && (r.Miss? ==> forall i: nat :: k <= i < TLB_MAX ==> !Hits(p, i, tlb[i], asid, a))
    decreases TLB_MAX - k
  {
    hide Hits;
    if k < TLB_MAX {
      FindMtlbResult(p, tlb, asid, a, k + 1);
    }
  }

  lemma SearchResult(p: Params, tlb: seq<Entry>, asid: nat, a: Word)
    requires IsTable(tlb)
    ensures var r := Search(p, tlb, asid, a);
            && (r.At? ==> Looked(p, a, r.index) && Hits(p, r.index, tlb[r.index], asid, a))
            && (r.Miss? ==> forall i: nat :: Looked(p, a, i) ==> !Hits(p, i, tlb[i], asid, a))
  {
    hide Hits, SetIndex, FindStlb, FindMtlb;
    FindStlbResult(p, tlb, asid, a, 0);
    FindMtlbResult(p, tlb, asid, a, STLB);
  }

  // ---- Refill ----------------------------------------------------------------------

  /** fill_tlb_entry once the page size has been accepted. */
  function FillEntry(t: Entry, i: nat, asid: nat, vppn: nat, r: Refill): Entry {
    Entry(true, asid, FlagG(r.lo0) && FlagG(r.lo1), vppn, if i >= STLB then r.ps else t.ps, r.lo0, r.lo1)
  }

  /** The victim: a random way of the set of the address, or a random MTLB entry. */
  function Victim(p: Params, entryHi: Word, ps: nat, rand: nat): nat
    ensures Victim(p, entryHi, ps, rand) < TLB_MAX
  {
    if ps == p.stlbPs then
      ShrLow(Shr(entryHi - entryHi % 0x2000, p.stlbPs + 1), 8);
      rand % 8 * 256 + Low(Shr(entryHi - entryHi % 0x2000, p.stlbPs + 1), 8)
    else
      STLB + rand % 64
  }

  function Vppn(a: Word): nat { (a / 0x2000) % 0x8_0000_0000 }

  /** helper_tlbfill for a given EntryHi, refill and random number. */
  function TlbFill(p: Params, tlb: seq<Entry>, asid: nat, entryHi: Word, r: Refill, rand: nat): seq<Entry>
    requires IsTable(tlb)
    ensures IsTable(TlbFill(p, tlb, asid, entryHi, r, rand))
  {
    if !CheckPs(p.prcfg2, r.ps) || !CheckPs(p.prcfg2, p.stlbPs) then tlb
    else
      var i := Victim(p, entryHi, r.ps, rand);
      tlb[i := FillEntry(tlb[i], i, asid, Vppn(entryHi), r)]
  }

  // ---- Tags and sets -----------------------------------------------------------------

  lemma TagOfAddress(a: Word, ps: nat)
    requires ps >= 12
    ensures Shr(Vppn(a), ps - 12) == PairNumber(a, ps)
  {
    hide Shr;
    var x := a % TWO48;
    assert Vppn(a) == x / 0x2000;
    assert Shr(x, 13) == x / 0x2000 by {
      ShrDiv(x, 13);
      Pow2Values();
    }
    ShrSplit(x, 13, ps + 1);
  }

  lemma VictimPlace(p: Params, hi: Word, ps: nat, rand: nat)
    ensures Victim(p, hi, ps, rand) < STLB <==> ps == p.stlbPs
  {
    if ps == p.stlbPs {
      ShrLow(Shr(hi - hi % 0x2000, ps + 1), 8);
    }
  }

  /** An STLB victim lies in the set of its own tag. */
  lemma VictimSet(p: Params, hi: Word, ps: nat, rand: nat)
    requires ps >= 12 && (hi < TWO48 || ps <= 39)
    ensures var i := Victim(p, hi, ps, rand);
            i < STLB ==> i % 256 == Low(Shr(Vppn(hi), ps - 12), 8)
  {
    hide Shr, Low;
    if ps == p.stlbPs {
      var x := hi - hi % 0x2000;
      var y := hi / 0x2000;
      assert Shr(x, ps + 1) == Shr(y, ps - 12) by {
        ShrDiv(x, 13);
        Pow2Values();
        ShrSplit(x, 13, ps + 1);
      }
      assert Low(Shr(y, ps - 12), 8) == Low(Shr(Vppn(hi), ps - 12), 8) by {
        if hi >= TWO48 {
          MiddleBits(y, ps - 12, 8, 35);
          LowMod(y, 35);
          Pow2Values();
        }
      }
      ShrLow(Shr(x, ps + 1), 8);
      assert Pow2(8) == 256;
    }
  }

  // ---- Placement -----------------------------------------------------------------------

  /** A valid STLB entry lies in the set of its own tag. */
  predicate Placed(p: Params, i: nat, t: Entry) {
    t.e && i < STLB ==> p.stlbPs >= 12 && i % 256 == Low(Shr(t.vppn, p.stlbPs - 12), 8)
  }

  ghost predicate AllPlaced(p: Params, tlb: seq<Entry>) {
    IsTable(tlb) && forall i: nat :: i < |tlb| ==> Placed(p, i, tlb[i])
  }

  /** TLBFILL, from any EntryHi and any page pair, keeps placement; invalidation does too. */
  lemma FillKeepsPlaced(p: Params, tlb: seq<Entry>, asid: nat, hi: Word, r: Refill, rand: nat)
    requires AllPlaced(p, tlb) && 12 <= p.stlbPs <= 39
    ensures AllPlaced(p, TlbFill(p, tlb, asid, hi, r, rand))
  {
    hide Shr, Low, CheckPs, Vppn;
    VictimPlace(p, hi, r.ps, rand);
    if r.ps == p.stlbPs {
      VictimSet(p, hi, r.ps, rand);
    }
  }

  lemma ClearKeepsPlaced(p: Params, tlb: seq<Entry>, tlb': seq<Entry>)
    requires AllPlaced(p, tlb) && OnlyClears(tlb, tlb')
    ensures AllPlaced(p, tlb')
  {
    hide Shr, Low;
    forall i: nat | i < |tlb'| ensures Placed(p, i, tlb'[i]) { assert Placed(p, i, tlb[i]); }
  }

  /** Searching the set and the MTLB finds a match exactly when some entry of the whole table matches. */
  lemma SearchIsFullScan(p: Params, tlb: seq<Entry>, asid: nat, a: Word)
    requires AllPlaced(p, tlb)
    ensures Search(p, tlb, asid, a).At? <==> exists i: nat :: i < TLB_MAX && Hits(p, i, tlb[i], asid, a)
  {
    hide Search, Shr, Low;
    SearchResult(p, tlb, asid, a);
    if Search(p, tlb, asid, a).Miss? {
      forall i: nat | i < TLB_MAX
        ensures !Hits(p, i, tlb[i], asid, a)
      {
        assert Placed(p, i, tlb[i]);
        assert Hits(p, i, tlb[i], asid, a) ==> Looked(p, a, i);
      }
    }
  }

  /** What was just filled in matches its address and is where the search looks. */
  lemma FreshHits(p: Params, t: Entry, a: Word, asid: nat, r: Refill, rand: nat)
    requires r.ps >= 12
    ensures var i := Victim(p, EntryHi(a), r.ps, rand);
            var f := FillEntry(t, i, asid, Vppn(a), r);
            Hits(p, i, f, asid, a) && Looked(p, a, i) && EntryPs(p, i, f) == r.ps
  {
    hide Shr, Low;
    VictimPlace(p, EntryHi(a), r.ps, rand);
    TagOfAddress(a, r.ps);
    VictimSet(p, EntryHi(a), r.ps, rand);
    assert Vppn(EntryHi(a)) == Vppn(a);
  }

  // ---- Translation -----------------------------------------------------------------

  function MapFound(p: Params, tlb: seq<Entry>, found: Found, a: Word, access: Access, plv: nat): Ret
    requires IsTable(tlb)
    requires found.At? ==> found.index < TLB_MAX
  {
    if found.At? && EntryPs(p, found.index, tlb[found.index]) >= 12 then
      var t := tlb[found.index];
      MapPair(t.lo0, t.lo1, EntryPs(p, found.index, t), a, access, plv, false)
    else NoMatch
  }

  function SearchIn(p: Params, tlb: seq<Entry>, asid: nat, a: Word): (r: Found)
    requires IsTable(tlb)
    ensures r.At? ==> r.index < TLB_MAX
  {
    SearchResult(p, tlb, asid, a);
    Search(p, tlb, asid, a)
  }

  datatype Translated = Translated(ret: Ret, tlb: seq<Entry>)

  /** TLBREHI while the walker runs: the pair number of the address, page size zero. */
  function EntryHi(a: Word): Word { Vppn(a) * 0x2000 }

  lemma TagKept(a: Word)
    ensures Vppn(EntryHi(a)) == Vppn(a)
  {
  }

  /** loongarch_map_address with the hardware walker on and ptw_hw_setVD off. */
  function MapAddress(p: Params, mem: Memory, roots: Roots, tlb: seq<Entry>, asid: nat,
                      a: Word, access: Access, plv: nat, rand: nat): (r: Translated)
    requires IsTable(tlb)
    ensures IsTable(r.tlb)
  {
    var found := SearchIn(p, tlb, asid, a);
    if found.At? then Translated(MapFound(p, tlb, found, a, access, plv), tlb)
    else
      var filled := TlbFill(p, tlb, asid, EntryHi(a), Walk(p.walk, mem, roots, a), rand);
      Translated(MapFound(p, filled, SearchIn(p, filled, asid, a), a, access, plv), filled)
  }

  // ---- Invalidation ----------------------------------------------------------------

  function Cleared(t: Entry): Entry { t.(e := false) }

  function InvalidateAll(tlb: seq<Entry>): seq<Entry> { seq(|tlb|, i requires 0 <= i < |tlb| => Cleared(tlb[i])) }

  function InvalidateG(tlb: seq<Entry>, g: bool): seq<Entry> {
    seq(|tlb|, i requires 0 <= i < |tlb| => if FlagG(tlb[i].lo0) == g then Cleared(tlb[i]) else tlb[i])
  }

  function InvalidateAsid(tlb: seq<Entry>, asid: nat): seq<Entry> {
    seq(|tlb|, i requires 0 <= i < |tlb| =>
      if !FlagG(tlb[i].lo0) && tlb[i].asid == asid then Cleared(tlb[i]) else tlb[i])
  }

  function InvalidatePageAsid(p: Params, tlb: seq<Entry>, asid: nat, a: Word): seq<Entry> {
    seq(|tlb|, i requires 0 <= i < |tlb| =>
      if tlb[i].e && !FlagG(tlb[i].lo0) && tlb[i].asid == asid && Covers(tlb[i].vppn, EntryPs(p, i, tlb[i]), a)
      then Cleared(tlb[i]) else tlb[i])
  }

  function InvalidatePageAsidOrG(p: Params, tlb: seq<Entry>, asid: nat, a: Word): seq<Entry> {
    seq(|tlb|, i requires 0 <= i < |tlb| =>
      if tlb[i].e && (FlagG(tlb[i].lo0) || tlb[i].asid == asid) && Covers(tlb[i].vppn, EntryPs(p, i, tlb[i]), a)
      then Cleared(tlb[i]) else tlb[i])
  }

  /** Entries that TLBCLR and TLBFLUSH reach from TLBIDX.INDEX: one STLB set, or all of the MTLB. */
  predicate InLine(index: nat, i: nat) {
    if index < STLB then i < STLB && i % 256 == index % 256 else index < TLB_MAX && STLB <= i < TLB_MAX
  }

  function ClearLine(tlb: seq<Entry>, asid: nat, index: nat): seq<Entry> {
    seq(|tlb|, i requires 0 <= i < |tlb| =>
      if InLine(index, i) && !FlagG(tlb[i].lo0) && tlb[i].asid == asid then Cleared(tlb[i]) else tlb[i])
  }

  function FlushLine(tlb: seq<Entry>, index: nat): seq<Entry> {
    seq(|tlb|, i requires 0 <= i < |tlb| => if InLine(index, i) then Cleared(tlb[i]) else tlb[i])
  }

  /** Every invalidation only clears E bits. */
  ghost predicate OnlyClears(before: seq<Entry>, after: seq<Entry>) {
    && |after| == |before|
    && forall i :: 0 <= i < |before| ==> after[i] == before[i] || after[i] == Cleared(before[i])
  }
}
