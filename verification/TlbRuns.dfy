/**
 Runs of the MMU: translations, context switches, invalidations and page-table
 updates in any order, with any victim choices.  The machine with a TLB is shown
 to return what a machine without a TLB returns, and no address ever matches two
 entries.
 */
module TlbRuns {
  import opened Words
  import opened PageWalk
  import opened Tlb

  /** Constant registers, and the page-table roots of each address space. */
  datatype World = World(p: Params, roots: nat -> Roots)

  function WalkIn(w: World, mem: Memory, asid: nat, a: Word): Refill { Walk(w.p.walk, mem, w.roots(asid), a) }

  // ---- The machine without a TLB -----------------------------------------------------

  /** Translation by page walk and permission check alone. */
  function WalkTranslate(w: World, mem: Memory, asid: nat, a: Word, access: Access, plv: nat): Ret {
    var r := WalkIn(w, mem, asid, a);
    if r.ps >= 12 && CheckPs(w.p.prcfg2, r.ps) && CheckPs(w.p.prcfg2, w.p.stlbPs) then
      MapPair(r.lo0, r.lo1, r.ps, a, access, plv, false)
    else NoMatch
  }

  // ---- Assumptions -------------------------------------------------------------------

  const ASIDS: nat := 1024

  /** Supported page sizes are 4 KiB to 2^39 bytes; the PRCFG2 values of both cores qualify. */
  ghost predicate SaneSizes(prcfg2: Word) {
    forall ps: nat :: CheckPs(prcfg2, ps) ==> 12 <= ps <= 39
  }

  /** The PRCFG2 values of the two cores: 4 KiB to 512 MiB, and 16 KiB with 32 MiB. */
  lemma SupportedSizes()
    ensures SaneSizes(0x3fff_f000) && SaneSizes(0x100_4000)
  {
    forall ps: nat | CheckPs(0x100_4000, ps)
      ensures 12 <= ps <= 39
    {
      SizeBits(0x100_4000, ps);
    }
    forall ps: nat | CheckPs(0x3fff_f000, ps)
      ensures 12 <= ps <= 39
    {
      SizeBits(0x3fff_f000, ps);
    }
  }

  lemma SizeBits(prcfg2: Word, ps: nat)
    requires prcfg2 % 0x1000 == 0 && prcfg2 < 0x100_0000_0000 && CheckPs(prcfg2, ps)
    ensures 12 <= ps <= 39
  {
    hide Shr, Low, Pow2;
    if ps < 12 {
      assert Low(prcfg2, 12) == 0 by {
        Pow2Values();
        LowMod(prcfg2, 12);
      }
      ZeroBit(prcfg2, ps, 12);
    } else if ps >= 40 {
      assert Pow2(40) == 0x100_0000_0000 by { Pow2Values(); }
      HighZero(prcfg2, 40, ps);
    }
  }

  lemma HighZero(x: nat, n: nat, k: nat)
    requires n <= k && x < Pow2(n)
    ensures Shr(x, k) == 0
  {
    hide Shr, Pow2;
    Pow2Mono(n, k);
    ShrDiv(x, k);
    DivUnique(x, Pow2(k), 0, x);
  }

  predicate Global(r: Refill) { FlagG(r.lo0) && FlagG(r.lo1) }

  /** A page pair that is global in one address space is mapped alike in all. */
  ghost predicate GlobalShared(w: World, mem: Memory) {
    forall s: nat, t: nat, a: Word ::
      s < ASIDS && t < ASIDS && Canonical(a) && Global(WalkIn(w, mem, s, a))
      ==> WalkIn(w, mem, t, a) == WalkIn(w, mem, s, a)
  }

  ghost predicate GoodTables(w: World, mem: Memory) {
    && (forall s: nat :: s < ASIDS ==> CleanTables(w.p.walk, mem, w.roots(s)))
    && GlobalShared(w, mem)
  }

  ghost predicate GoodWorld(w: World) { Ordered(w.p.walk) && SaneSizes(w.p.prcfg2) }

  // ---- The invariant -----------------------------------------------------------------

  /** The entry holds what a walk finds for every address it covers. */
  ghost predicate Faithful(w: World, mem: Memory, asid: nat, vppn: nat, ps: nat, r: Refill) {
    forall a: Word :: Canonical(a) && Covers(vppn, ps, a) ==> WalkIn(w, mem, asid, a) == r
  }

  ghost predicate Coherent(w: World, mem: Memory, i: nat, t: Entry) {
    t.e ==>
      var ps := EntryPs(w.p, i, t);
      && ps >= 12 && CheckPs(w.p.prcfg2, ps) && CheckPs(w.p.prcfg2, w.p.stlbPs)
      && t.asid < ASIDS
      && t.g == (FlagG(t.lo0) && FlagG(t.lo1))
      && Placed(w.p, i, t)
      && Faithful(w, mem, t.asid, t.vppn, ps, Refill(t.lo0, t.lo1, ps))
  }

  ghost predicate Disjoint(w: World, i: nat, t: Entry, j: nat, u: Entry) {
    forall asid: nat, a: Word ::
      asid < ASIDS && Canonical(a) && Hits(w.p, i, t, asid, a) ==> !Hits(w.p, j, u, asid, a)
  }

  ghost predicate NoOverlap(w: World, tlb: seq<Entry>) {
    forall i: nat, j: nat :: i < |tlb| && j < |tlb| && i != j ==> Disjoint(w, i, tlb[i], j, tlb[j])
  }

  ghost predicate AllCoherent(w: World, mem: Memory, tlb: seq<Entry>) {
    forall i: nat :: i < |tlb| ==> Coherent(w, mem, i, tlb[i])
  }

  ghost predicate Inv(w: World, mem: Memory, tlb: seq<Entry>) {
    IsTable(tlb) && AllCoherent(w, mem, tlb) && NoOverlap(w, tlb)
  }

  // ---- Hits are walks --------------------------------------------------------------------

  /** A hit returns the walk of the current address space, even on a global page of another. */
  lemma HitIsWalk(w: World, mem: Memory, i: nat, t: Entry, asid: nat, a: Word)
    requires GlobalShared(w, mem) && Coherent(w, mem, i, t) && asid < ASIDS && Canonical(a)
    requires Hits(w.p, i, t, asid, a)
    ensures WalkIn(w, mem, asid, a) == Refill(t.lo0, t.lo1, EntryPs(w.p, i, t))
  {
    hide Covers, Canonical, WalkIn, CheckPs;
    assert WalkIn(w, mem, t.asid, a) == Refill(t.lo0, t.lo1, EntryPs(w.p, i, t));
    if t.asid != asid {
      assert Global(WalkIn(w, mem, t.asid, a));
    }
  }

  lemma CoherentIsPlaced(w: World, mem: Memory, tlb: seq<Entry>)
    requires IsTable(tlb) && AllCoherent(w, mem, tlb)
    ensures AllPlaced(w.p, tlb)
  {
    hide Shr, Low, Faithful, CheckPs;
    forall i: nat | i < |tlb| ensures Placed(w.p, i, tlb[i]) {
      assert Coherent(w, mem, i, tlb[i]);
    }
  }

  // ---- Refill keeps the invariant ------------------------------------------------------

  lemma FilledCoherent(w: World, mem: Memory, asid: nat, a: Word, old_: Entry, i: nat, rand: nat)
    requires GoodWorld(w) && GoodTables(w, mem) && asid < ASIDS && Canonical(a)
    requires var r := WalkIn(w, mem, asid, a);
             CheckPs(w.p.prcfg2, r.ps) && CheckPs(w.p.prcfg2, w.p.stlbPs) && i == Victim(w.p, EntryHi(a), r.ps, rand)
    ensures Coherent(w, mem, i, FillEntry(old_, i, asid, Vppn(a), WalkIn(w, mem, asid, a)))
    ensures EntryPs(w.p, i, FillEntry(old_, i, asid, Vppn(a), WalkIn(w, mem, asid, a))) == WalkIn(w, mem, asid, a).ps
    ensures Covers(Vppn(a), WalkIn(w, mem, asid, a).ps, a)
  {
    hide Shr, Low, CheckPs, Canonical, Walk, FlagG, CleanTables, Ordered;
    var r := WalkIn(w, mem, asid, a);
    TagOfAddress(a, r.ps);
    assert Vppn(EntryHi(a)) == Vppn(a);
    VictimPlace(w.p, EntryHi(a), r.ps, rand);
    VictimSet(w.p, EntryHi(a), r.ps, rand);
    forall b: Word | Canonical(b) && Covers(Vppn(a), r.ps, b)
      ensures WalkIn(w, mem, asid, b) == r
    {
      WalkAgree(w.p.walk, mem, w.roots(asid), a, b);
    }
  }

  /** What a missing search lets in overlaps nothing: an entry that met it would have hit. */
  lemma FilledDisjoint(w: World, mem: Memory, asid: nat, a: Word, i: nat, f: Entry, j: nat, u: Entry)
    requires GoodTables(w, mem) && asid < ASIDS && Canonical(a)
    requires Coherent(w, mem, i, f) && Coherent(w, mem, j, u)
    requires f.e && f.asid == asid && Covers(f.vppn, EntryPs(w.p, i, f), a)
    requires !Hits(w.p, j, u, asid, a)
    ensures Disjoint(w, i, f, j, u) && Disjoint(w, j, u, i, f)
  {
    hide Canonical, CheckPs, WalkIn, FlagG, Shr, Low, PairNumber, Faithful, CleanTables;
    forall s: nat, b: Word | s < ASIDS && Canonical(b) && Hits(w.p, i, f, s, b) && Hits(w.p, j, u, s, b)
      ensures false
    {
      HitIsWalk(w, mem, i, f, s, b);
      HitIsWalk(w, mem, j, u, s, b);
    }
  }

  lemma FillKeepsInv(w: World, mem: Memory, tlb: seq<Entry>, asid: nat, a: Word, rand: nat)
    requires GoodWorld(w) && GoodTables(w, mem) && Inv(w, mem, tlb) && asid < ASIDS && Canonical(a)
    requires Search(w.p, tlb, asid, a).Miss?
    ensures Inv(w, mem, TlbFill(w.p, tlb, asid, EntryHi(a), WalkIn(w, mem, asid, a), rand))
  {
    hide Search, Coherent, Hits, Disjoint, CheckPs, Canonical, WalkIn, FillEntry, Victim, GoodTables, GoodWorld;
    var r := WalkIn(w, mem, asid, a);
    if CheckPs(w.p.prcfg2, r.ps) && CheckPs(w.p.prcfg2, w.p.stlbPs) {
      var i := Victim(w.p, EntryHi(a), r.ps, rand);
      var f := FillEntry(tlb[i], i, asid, Vppn(a), r);
      var tlb' := tlb[i := f];
      assert Vppn(EntryHi(a)) == Vppn(a);
      FilledCoherent(w, mem, asid, a, tlb[i], i, rand);
      forall j: nat | j < TLB_MAX && j != i
        ensures Disjoint(w, i, f, j, tlb[j]) && Disjoint(w, j, tlb[j], i, f)
      {
        MissEverywhere(w, mem, tlb, asid, a, j);
        FilledFields(tlb[i], i, asid, Vppn(a), r);
        FilledDisjoint(w, mem, asid, a, i, f, j, tlb[j]);
      }
    }
  }

  lemma FilledFields(t: Entry, i: nat, asid: nat, vppn: nat, r: Refill)
    ensures var f := FillEntry(t, i, asid, vppn, r); f.e && f.asid == asid && f.vppn == vppn
  {
  }

  lemma MissEverywhere(w: World, mem: Memory, tlb: seq<Entry>, asid: nat, a: Word, j: nat)
    requires IsTable(tlb) && AllCoherent(w, mem, tlb) && j < TLB_MAX
    requires Search(w.p, tlb, asid, a).Miss?
    ensures !Hits(w.p, j, tlb[j], asid, a)
  {
    hide Search, Hits, Coherent;
    CoherentIsPlaced(w, mem, tlb);
    SearchIsFullScan(w.p, tlb, asid, a);
  }

  /** Clearing E bits keeps the invariant. */
  lemma ClearKeepsInv(w: World, mem: Memory, tlb: seq<Entry>, tlb': seq<Entry>)
    requires Inv(w, mem, tlb) && OnlyClears(tlb, tlb')
    ensures Inv(w, mem, tlb')
  {
    hide Canonical, Covers, Faithful, CheckPs;
    forall i: nat, j: nat | i < |tlb'| && j < |tlb'| && i != j
      ensures Disjoint(w, i, tlb'[i], j, tlb'[j])
    {
      assert Disjoint(w, i, tlb[i], j, tlb[j]);
      assert forall asid: nat, a: Word :: Hits(w.p, i, tlb'[i], asid, a) ==> Hits(w.p, i, tlb[i], asid, a);
      assert forall asid: nat, a: Word :: Hits(w.p, j, tlb'[j], asid, a) ==> Hits(w.p, j, tlb[j], asid, a);
    }
    forall i: nat | i < |tlb'|
      ensures Coherent(w, mem, i, tlb'[i])
    {
      assert Coherent(w, mem, i, tlb[i]);
    }
  }

  // ---- One translation -----------------------------------------------------------------

  lemma FilledHits(w: World, mem: Memory, tlb: seq<Entry>, asid: nat, a: Word, rand: nat)
    requires GoodWorld(w) && GoodTables(w, mem) && IsTable(tlb) && asid < ASIDS && Canonical(a)
    requires CheckPs(w.p.prcfg2, WalkIn(w, mem, asid, a).ps) && CheckPs(w.p.prcfg2, w.p.stlbPs)
    ensures var r := WalkIn(w, mem, asid, a);
            var tlb' := TlbFill(w.p, tlb, asid, EntryHi(a), r, rand);
            exists i: nat :: i < TLB_MAX && Hits(w.p, i, tlb'[i], asid, a)
  {
    hide WalkIn, CheckPs, Canonical, Covers, Victim, GoodWorld, GoodTables;
    var r := WalkIn(w, mem, asid, a);
    var i := Victim(w.p, EntryHi(a), r.ps, rand);
    assert Vppn(EntryHi(a)) == Vppn(a);
    FilledCoherent(w, mem, asid, a, tlb[i], i, rand);
    var tlb' := TlbFill(w.p, tlb, asid, EntryHi(a), r, rand);
    assert Hits(w.p, i, tlb'[i], asid, a);
  }

  /** Whatever the search finds gives the result of a walk. */
  lemma FoundIsWalk(w: World, mem: Memory, tlb: seq<Entry>, asid: nat, a: Word, access: Access, plv: nat)
    requires GoodTables(w, mem) && Inv(w, mem, tlb) && asid < ASIDS && Canonical(a)
    requires Search(w.p, tlb, asid, a).At?
    ensures MapFound(w.p, tlb, SearchIn(w.p, tlb, asid, a), a, access, plv) == WalkTranslate(w, mem, asid, a, access, plv)
  {
    hide Search, Hits, CheckPs, Canonical, WalkIn, MapPair, Faithful, NoOverlap;
    SearchResult(w.p, tlb, asid, a);
    var i := Search(w.p, tlb, asid, a).index;
    assert Coherent(w, mem, i, tlb[i]);
    HitIsWalk(w, mem, i, tlb[i], asid, a);
    HitIsValid(w.p, i, tlb[i], asid, a);
  }

  lemma HitIsValid(p: Params, i: nat, t: Entry, asid: nat, a: Word)
    requires Hits(p, i, t, asid, a)
    ensures t.e
  {
  }

  /** One translation through the TLB returns what the walk returns and keeps the invariant. */
  lemma TranslateStep(w: World, mem: Memory, tlb: seq<Entry>, asid: nat, a: Word, access: Access, plv: nat, rand: nat)
    requires GoodWorld(w) && GoodTables(w, mem) && Inv(w, mem, tlb) && asid < ASIDS && Canonical(a)
    ensures var t := MapAddress(w.p, mem, w.roots(asid), tlb, asid, a, access, plv, rand);
            t.ret == WalkTranslate(w, mem, asid, a, access, plv) && Inv(w, mem, t.tlb)
  {
    hide Search, Hits, CheckPs, Canonical, Walk, MapPair, AllCoherent, NoOverlap, GoodTables, MapFound, Ordered;
    if Search(w.p, tlb, asid, a).At? {
      FoundIsWalk(w, mem, tlb, asid, a, access, plv);
    } else {
      var r := WalkIn(w, mem, asid, a);
      FillKeepsInv(w, mem, tlb, asid, a, rand);
      var filled := TlbFill(w.p, tlb, asid, EntryHi(a), r, rand);
      if CheckPs(w.p.prcfg2, r.ps) && CheckPs(w.p.prcfg2, w.p.stlbPs) {
        FilledHits(w, mem, tlb, asid, a, rand);
        CoherentIsPlaced(w, mem, filled);
        SearchIsFullScan(w.p, filled, asid, a);
        FoundIsWalk(w, mem, filled, asid, a, access, plv);
      } else {
        assert filled == tlb;
        assert MapFound(w.p, filled, Miss, a, access, plv) == NoMatch by { MissIsNoMatch(w.p, filled, a, access, plv); }
      }
    }
  }

  lemma MissIsNoMatch(p: Params, tlb: seq<Entry>, a: Word, access: Access, plv: nat)
    requires IsTable(tlb)
    ensures MapFound(p, tlb, Miss, a, access, plv) == NoMatch
  {
  }

  // ---- Page-table updates --------------------------------------------------------------

  /** An update that changes the mapping of no address outside the page pair of `a`, and of no other
      address space unless the pair was global there. */
  ghost predicate OnePageChange(w: World, mem: Memory, mem': Memory, asid: nat, a: Word) {
    forall s: nat, b: Word ::
      s < ASIDS && Canonical(b) && WalkIn(w, mem', s, b) != WalkIn(w, mem, s, b) ==>
        var r := WalkIn(w, mem, s, b);
        (s == asid || FlagG(r.lo0)) && PairNumber(a, r.ps) == PairNumber(b, r.ps)
  }

  /** Rewriting one page's tables and invalidating that page restores coherence. */
  lemma RemapPageKeepsInv(w: World, mem: Memory, mem': Memory, tlb: seq<Entry>, asid: nat, a: Word)
    requires Inv(w, mem, tlb) && OnePageChange(w, mem, mem', asid, a)
    ensures Inv(w, mem', InvalidatePageAsidOrG(w.p, tlb, asid, a))
  {
    hide CheckPs, Canonical, WalkIn, PairNumber, FlagG, Shr, Low;
    var tlb' := InvalidatePageAsidOrG(w.p, tlb, asid, a);
    ClearKeepsInv(w, mem, tlb, tlb');
    forall i: nat | i < |tlb'|
      ensures Coherent(w, mem', i, tlb'[i])
    {
      assert Coherent(w, mem, i, tlb'[i]);
    }
  }

  // ---- Runs ----------------------------------------------------------------------------

  datatype Step =
    | Translate(a: Word, access: Access, plv: nat, rand: nat)
    | SwitchAsid(asid: nat)
    | InvAll
    | InvAllG(g: bool)
    | InvAllAsid(asid: nat)
    | InvPageAsid(asid: nat, a: Word)
    | InvPageAsidOrG(asid: nat, a: Word)
    | TlbClr(index: nat)
    | TlbFlush(index: nat)
    | RemapAll(mem: Memory)
    | RemapPage(mem: Memory, a: Word)

  datatype State = State(tlb: seq<Entry>, asid: nat, mem: Memory)

  /** What the guest must respect; it speaks of page tables, never of the TLB. */
  ghost predicate Allowed(w: World, mem: Memory, asid: nat, step: Step) {
    match step
    case Translate(a, _, _, _) => Canonical(a)
    case SwitchAsid(s) => s < ASIDS
    case RemapAll(mem') => GoodTables(w, mem')
    case RemapPage(mem', a) => GoodTables(w, mem') && OnePageChange(w, mem, mem', asid, a)
    case _ => true
  }

  function NextMem(mem: Memory, step: Step): Memory {
    if step.RemapAll? || step.RemapPage? then step.mem else mem
  }

  function NextAsid(asid: nat, step: Step): nat { if step.SwitchAsid? then step.asid else asid }

  function NextTlb(w: World, s: State, step: Step): (tlb: seq<Entry>)
    requires IsTable(s.tlb)
    ensures IsTable(tlb)
  {
    match step
    case Translate(a, access, plv, rand) =>
      MapAddress(w.p, s.mem, w.roots(s.asid), s.tlb, s.asid, a, access, plv, rand).tlb
    case SwitchAsid(_) => s.tlb
    case InvAll => InvalidateAll(s.tlb)
    case InvAllG(g) => InvalidateG(s.tlb, g)
    case InvAllAsid(asid) => InvalidateAsid(s.tlb, asid)
    case InvPageAsid(asid, a) => InvalidatePageAsid(w.p, s.tlb, asid, a)
    case InvPageAsidOrG(asid, a) => InvalidatePageAsidOrG(w.p, s.tlb, asid, a)
    case TlbClr(index) => ClearLine(s.tlb, s.asid, index)
    case TlbFlush(index) => FlushLine(s.tlb, index)
    case RemapAll(_) => InvalidateAll(s.tlb)
    case RemapPage(_, a) => InvalidatePageAsidOrG(w.p, s.tlb, s.asid, a)
  }

  function Next(w: World, s: State, step: Step): (s': State)
    requires IsTable(s.tlb)
    ensures IsTable(s'.tlb)
  {
    State(NextTlb(w, s, step), NextAsid(s.asid, step), NextMem(s.mem, step))
  }

  function Output(w: World, s: State, step: Step): seq<Ret>
    requires IsTable(s.tlb)
  {
    if step.Translate? then
      [MapAddress(w.p, s.mem, w.roots(s.asid), s.tlb, s.asid, step.a, step.access, step.plv, step.rand).ret]
    else []
  }

  /** Results of every translation of a run, through the TLB. */
  function Run(w: World, s: State, steps: seq<Step>): seq<Ret>
    requires IsTable(s.tlb)
    decreases |steps|
  {
    if steps == [] then [] else Output(w, s, steps[0]) + Run(w, Next(w, s, steps[0]), steps[1..])
  }

  /** The state after a run. */
  function After(w: World, s: State, steps: seq<Step>): (s': State)
    requires IsTable(s.tlb)
    ensures IsTable(s'.tlb)
    decreases |steps|
  {
    if steps == [] then s else After(w, Next(w, s, steps[0]), steps[1..])
  }

  /** The same run on the machine that walks for every access. */
  function WalkRun(w: World, mem: Memory, asid: nat, steps: seq<Step>): seq<Ret>
    decreases |steps|
  {
    if steps == [] then []
    else
      (if steps[0].Translate? then [WalkTranslate(w, mem, asid, steps[0].a, steps[0].access, steps[0].plv)] else [])
      + WalkRun(w, NextMem(mem, steps[0]), NextAsid(asid, steps[0]), steps[1..])
  }

  ghost predicate AllowedRun(w: World, mem: Memory, asid: nat, steps: seq<Step>)
    decreases |steps|
  {
    steps == [] ||
    (Allowed(w, mem, asid, steps[0]) &&
     AllowedRun(w, NextMem(mem, steps[0]), NextAsid(asid, steps[0]), steps[1..]))
  }

  ghost predicate Running(w: World, s: State) {
    GoodWorld(w) && GoodTables(w, s.mem) && s.asid < ASIDS && Inv(w, s.mem, s.tlb)
  }

  /** After INVTLB of everything, any page tables are coherent. */
  lemma EmptyIsCoherent(w: World, mem: Memory, tlb: seq<Entry>)
    requires Empty(tlb)
    ensures Inv(w, mem, tlb)
  {
  }

  lemma StepKeepsRunning(w: World, s: State, step: Step)
    requires Running(w, s) && Allowed(w, s.mem, s.asid, step)
    ensures Running(w, Next(w, s, step))
    ensures step.Translate? ==>
              Output(w, s, step) == [WalkTranslate(w, s.mem, s.asid, step.a, step.access, step.plv)]
  {
    hide GoodWorld, GoodTables, AllCoherent, NoOverlap, MapAddress, Canonical, OnePageChange, Covers, FlagG, WalkTranslate;
    var s' := Next(w, s, step);
    match step
    case Translate(a, access, plv, rand) =>
      TranslateStep(w, s.mem, s.tlb, s.asid, a, access, plv, rand);
    case SwitchAsid(_) =>
    case RemapAll(mem') =>
      EmptyIsCoherent(w, mem', s'.tlb);
    case RemapPage(mem', a) =>
      RemapPageKeepsInv(w, s.mem, mem', s.tlb, s.asid, a);
    case _ =>
      ClearKeepsInv(w, s.mem, s.tlb, s'.tlb);
  }

  /** TLB transparency: over every run and every choice of victims, the machine with a TLB returns
      exactly what the machine without one returns. */
  lemma {:induction false} Transparency(w: World, s: State, steps: seq<Step>)
    requires Running(w, s) && AllowedRun(w, s.mem, s.asid, steps)
    ensures Run(w, s, steps) == WalkRun(w, s.mem, s.asid, steps)
    ensures Running(w, After(w, s, steps))
    decreases |steps|
  {
    hide GoodWorld, GoodTables, AllCoherent, NoOverlap, Next, Output, WalkTranslate, Allowed, NextTlb;
    if steps != [] {
      StepKeepsRunning(w, s, steps[0]);
      NextFields(w, s, steps[0]);
      Transparency(w, Next(w, s, steps[0]), steps[1..]);
    }
  }

  lemma NextFields(w: World, s: State, step: Step)
    requires IsTable(s.tlb)
    ensures Next(w, s, step).mem == NextMem(s.mem, step) && Next(w, s, step).asid == NextAsid(s.asid, step)
    ensures !step.Translate? ==> Output(w, s, step) == []
  {
  }

  /** An emulator starts with every E bit clear. */
  lemma PowerOn(w: World, s: State)
    requires GoodWorld(w) && GoodTables(w, s.mem) && s.asid < ASIDS && Empty(s.tlb)
    ensures Running(w, s)
  {
    EmptyIsCoherent(w, s.mem, s.tlb);
  }

  /** No multi-hit: in every reachable state at most one entry matches any address, in any address space. */
  lemma NoMultiHit(w: World, s: State, steps: seq<Step>, asid: nat, a: Word)
    requires Running(w, s) && AllowedRun(w, s.mem, s.asid, steps)
    requires asid < ASIDS && Canonical(a)
    ensures AtMostOneHit(w.p, After(w, s, steps).tlb, asid, a)
  {
    hide Hits, GoodWorld, GoodTables, AllCoherent, After, Canonical;
    Transparency(w, s, steps);
    var tlb := After(w, s, steps).tlb;
    forall i: nat, j: nat | i < TLB_MAX && j < TLB_MAX && i != j && Hits(w.p, i, tlb[i], asid, a)
      ensures !Hits(w.p, j, tlb[j], asid, a)
    {
      assert Disjoint(w, i, tlb[i], j, tlb[j]);
    }
  }
}
