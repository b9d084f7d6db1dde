/**
 Every table that can arise: runs of software writes (TLBWR), fills (TLBFILL), translations with and
 without V/D maintenance, and invalidations, in any order, from a table with no valid entry.
 */
module Reachable {
  import opened Words
  import opened PageWalk
  import opened Tlb
  import opened TlbRuns
  import opened SetVD
  import opened Mmu
  import opened Rights

  datatype TableStep =
    | Write(index: nat, ne: bool, asid: nat, vppn: nat, r: Refill)
    | Fill(asid: nat, entryHi: Word, r: Refill, rand: nat)
    | Walked(mem: Memory, roots: Roots, asid: nat, a: Word, access: Access, plv: nat, rand: nat)
    | Maintained(mem: Memory, roots: Roots, asid: nat, a: Word, access: Access, plv: nat, rand: nat)
    | DropAll
    | DropG(g: bool)
    | DropAsid(asid: nat)
    | DropPage(asid: nat, a: Word)
    | DropPageOrG(asid: nat, a: Word)
    | ClearSet(asid: nat, index: nat)
    | FlushSet(index: nat)

  function TableAfter(p: Params, tlb: seq<Entry>, step: TableStep): (tlb': seq<Entry>)
    requires IsTable(tlb)
    ensures IsTable(tlb')
  {
    match step
    case Write(index, ne, asid, vppn, r) =>
      if index >= TLB_MAX then tlb
      else if ne then tlb[index := Cleared(tlb[index])]
      else FillAt(p, tlb, index, asid, vppn, r)
    case Fill(asid, entryHi, r, rand) => TlbFill(p, tlb, asid, entryHi, r, rand)
    case Walked(mem, roots, asid, a, access, plv, rand) => MapAddress(p, mem, roots, tlb, asid, a, access, plv, rand).tlb
    case Maintained(mem, roots, asid, a, access, plv, rand) =>
      var first := FirstPass(p, tlb, asid, a, access, plv);
      if first.Some? && first.value != NeedsSetD then tlb
      else SecondPass(p, mem, roots, tlb, asid, a, access, plv, rand).tlb
    case DropAll => InvalidateAll(tlb)
    case DropG(g) => InvalidateG(tlb, g)
    case DropAsid(asid) => InvalidateAsid(tlb, asid)
    case DropPage(asid, a) => InvalidatePageAsid(p, tlb, asid, a)
    case DropPageOrG(asid, a) => InvalidatePageAsidOrG(p, tlb, asid, a)
    case ClearSet(asid, index) => ClearLine(tlb, asid, index)
    case FlushSet(index) => FlushLine(tlb, index)
  }

  function TableRun(p: Params, tlb: seq<Entry>, steps: seq<TableStep>): (tlb': seq<Entry>)
    requires IsTable(tlb)
    ensures IsTable(tlb')
    decreases |steps|
  {
    if steps == [] then tlb else TableRun(p, TableAfter(p, tlb, steps[0]), steps[1..])
  }

  // ---- Every reachable table is sane -----------------------------------------------------------

  lemma FillKeepsSane(p: Params, tlb: seq<Entry>, asid: nat, entryHi: Word, r: Refill, rand: nat)
    requires Sane(p, tlb)
    ensures Sane(p, TlbFill(p, tlb, asid, entryHi, r, rand))
  {
    hide CheckPs, FlagG, Victim, Vppn;
    if CheckPs(p.prcfg2, p.stlbPs) {
      TlbFillIsFillAt(p, tlb, asid, entryHi, r, rand);
      FillAtKeepsSane(p, tlb, Victim(p, entryHi, r.ps, rand), asid, Vppn(entryHi), r);
    }
  }

  lemma StepKeepsSane(p: Params, tlb: seq<Entry>, step: TableStep)
    requires Sane(p, tlb)
    ensures Sane(p, TableAfter(p, tlb, step))
  {
    hide CheckPs, FlagG, Covers, Search, Walk, TlbFill, VDRefill, MapPair, SaneEntry;
    match step
    case Write(index, ne, asid, vppn, r) =>
      if index < TLB_MAX {
        if ne {
          ClearKeepsSane(p, tlb, tlb[index := Cleared(tlb[index])]);
        } else {
          FillAtKeepsSane(p, tlb, index, asid, vppn, r);
        }
      }
    case Fill(asid, entryHi, r, rand) => FillKeepsSane(p, tlb, asid, entryHi, r, rand);
    case Walked(mem, roots, asid, a, access, plv, rand) =>
      FillKeepsSane(p, tlb, asid, EntryHi(a), Walk(p.walk, mem, roots, a), rand);
    case Maintained(mem, roots, asid, a, access, plv, rand) =>
      ClearKeepsSane(p, tlb, InvalidatePageAsidOrG(p, tlb, asid, a));
      FillKeepsSane(p, InvalidatePageAsidOrG(p, tlb, asid, a), asid, EntryHi(a), VDRefill(p, mem, roots, a, access), rand);
    case _ => ClearKeepsSane(p, tlb, TableAfter(p, tlb, step));
  }

  lemma {:induction false} RunKeepsSane(p: Params, tlb: seq<Entry>, steps: seq<TableStep>)
    requires Sane(p, tlb)
    ensures Sane(p, TableRun(p, tlb, steps))
    decreases |steps|
  {
    hide Sane, TableAfter;
    SaneTable(p, tlb);
    if steps != [] {
      StepKeepsSane(p, tlb, steps[0]);
      RunKeepsSane(p, TableAfter(p, tlb, steps[0]), steps[1..]);
    }
  }

  lemma SaneTable(p: Params, tlb: seq<Entry>)
    requires Sane(p, tlb)
    ensures IsTable(tlb)
  {
  }

  /** In every reachable TLB, software writes included, INVTLB of an address for its ASID or global leaves nothing
      that matches it, and touches only entries that cover it and are of that ASID or global in their even half. */
  lemma InvalidatedAlwaysMisses(p: Params, tlb: seq<Entry>, steps: seq<TableStep>, asid: nat, a: Word)
    requires Empty(tlb)
    ensures var t := TableRun(p, tlb, steps);
            var t' := InvalidatePageAsidOrG(p, t, asid, a);
            && IsTable(t') && Search(p, t', asid, a).Miss?
            && (forall i: nat :: i < TLB_MAX ==> !Hits(p, i, t'[i], asid, a))
            && (forall i: nat :: i < TLB_MAX && t'[i] != t[i] ==>
                  Covers(t[i].vppn, EntryPs(p, i, t[i]), a) && (FlagG(t[i].lo0) || t[i].asid == asid))
  {
    hide TableRun, Search, Hits, Covers, FlagG;
    RunKeepsSane(p, tlb, steps);
    InvalidatedMisses(p, TableRun(p, tlb, steps), asid, a);
  }

  // ---- Without software writes, every entry is where the search looks ------------------------------

  predicate HardwareOnly(step: TableStep) { !step.Write? }

  lemma FillKeepsPlacement(p: Params, tlb: seq<Entry>, asid: nat, entryHi: Word, r: Refill, rand: nat)
    requires AllPlaced(p, tlb) && SaneSizes(p.prcfg2)
    ensures AllPlaced(p, TlbFill(p, tlb, asid, entryHi, r, rand))
  {
    hide CheckPs, Placed, Victim;
    if CheckPs(p.prcfg2, p.stlbPs) { FillKeepsPlaced(p, tlb, asid, entryHi, r, rand); }
  }

  lemma StepKeepsPlaced(p: Params, tlb: seq<Entry>, step: TableStep)
    requires AllPlaced(p, tlb) && SaneSizes(p.prcfg2) && HardwareOnly(step)
    ensures AllPlaced(p, TableAfter(p, tlb, step))
  {
    hide CheckPs, FlagG, Covers, Search, Walk, TlbFill, VDRefill, MapPair, Placed, SaneSizes;
    if step.Fill? {
      FillKeepsPlacement(p, tlb, step.asid, step.entryHi, step.r, step.rand);
    } else if step.Walked? {
      FillKeepsPlacement(p, tlb, step.asid, EntryHi(step.a), Walk(p.walk, step.mem, step.roots, step.a), step.rand);
    } else if step.Maintained? {
      var dropped := InvalidatePageAsidOrG(p, tlb, step.asid, step.a);
      ClearKeepsPlaced(p, tlb, dropped);
      FillKeepsPlacement(p, dropped, step.asid, EntryHi(step.a), VDRefill(p, step.mem, step.roots, step.a, step.access), step.rand);
    } else {
      ClearKeepsPlaced(p, tlb, TableAfter(p, tlb, step));
    }
  }

  lemma {:induction false} RunKeepsPlaced(p: Params, tlb: seq<Entry>, steps: seq<TableStep>)
    requires AllPlaced(p, tlb) && SaneSizes(p.prcfg2) && forall i :: 0 <= i < |steps| ==> HardwareOnly(steps[i])
    ensures AllPlaced(p, TableRun(p, tlb, steps))
    decreases |steps|
  {
    hide AllPlaced, TableAfter, SaneSizes;
    PlacedTable(p, tlb);
    if steps != [] {
      StepKeepsPlaced(p, tlb, steps[0]);
      RunKeepsPlaced(p, TableAfter(p, tlb, steps[0]), steps[1..]);
    }
  }

  lemma PlacedTable(p: Params, tlb: seq<Entry>)
    requires AllPlaced(p, tlb)
    ensures IsTable(tlb)
  {
  }

  /** In every TLB filled by the walker and TLBFILL only, the search of eight ways and the MTLB hits exactly when some
      entry of the whole table matches. */
  lemma SearchIsAlwaysFullScan(p: Params, tlb: seq<Entry>, steps: seq<TableStep>, asid: nat, a: Word)
    requires Empty(tlb) && SaneSizes(p.prcfg2) && forall i :: 0 <= i < |steps| ==> HardwareOnly(steps[i])
    ensures var t := TableRun(p, tlb, steps);
            Search(p, t, asid, a).At? <==> exists i: nat :: i < TLB_MAX && Hits(p, i, t[i], asid, a)
  {
    hide TableRun, Search, Hits, SaneSizes;
    RunKeepsPlaced(p, tlb, steps);
    SearchIsFullScan(p, TableRun(p, tlb, steps), asid, a);
  }

  // ---- The multi-hit assertions ------------------------------------------------------------------------

  /** Where no address has two matches the assertions of the search cannot fire, at any check level. */
  lemma AssertionsNeverFire(w: World, s: State, steps: seq<Step>, asid: nat, a: Word)
    requires Running(w, s) && AllowedRun(w, s.mem, s.asid, steps) && asid < ASIDS && Canonical(a)
    ensures !TwoHits(w.p, After(w, s, steps).tlb, asid, a)
  {
    hide GoodWorld, GoodTables, AllCoherent, NoOverlap, AllowedRun, Hits, SetIndex, After, Canonical;
    NoMultiHit(w, s, steps, asid, a);
  }

  /** What was just filled in serves its own address space, and every other one exactly if both halves are global. */
  lemma FilledServes(p: Params, t: Entry, a: Word, asid: nat, r: Refill, rand: nat, other: nat)
    requires r.ps >= 12
    ensures var i := Victim(p, EntryHi(a), r.ps, rand);
            var f := FillEntry(t, i, asid, Vppn(EntryHi(a)), r);
            Hits(p, i, f, other, a) <==> other == asid || (Bit(r.lo0, 6) && Bit(r.lo1, 6))
  {
    hide Victim, Vppn, Covers;
    TagKept(a);
    FreshHits(p, t, a, asid, r, rand);
    LowFieldBits(r.lo0);
    LowFieldBits(r.lo1);
    hide Bit, FlagG;
  }
}
