/**
 Transparency with V/D maintenance on, in one address space whose base page size is STLBPS: a machine
 with a TLB, which maintains V and D only when it walks, against one that walks and maintains on
 every access.
 */
module MaintainedRuns {
  import opened Words
  import opened PageWalk
  import opened Tlb
  import opened TlbRuns
  import opened SetVD
  import opened Mmu
  import opened Reachable
  import opened MaintainedWalk
  import Aliasing

  // ---- The two machines ------------------------------------------------------------------------

  datatype Outcome = Outcome(ret: Ret, tlb: seq<Entry>, ram: Bytes)

  /** loongarch_map_address with the walker and ptw_hw_setVD on. */
  function Touched(p: Params, roots: Roots, asid: nat, tlb: seq<Entry>, ram: Bytes, a: Word, access: Access, plv: nat, rand: nat): (o: Outcome)
    requires IsTable(tlb)
    ensures IsTable(o.tlb)
  {
    var first := FirstPass(p, tlb, asid, a, access, plv);
    if first.Some? && first.value != NeedsSetD then Outcome(first.value, tlb, ram)
    else
      var s := SecondPass(p, Qwords(ram), roots, tlb, asid, a, access, plv, rand);
      Outcome(if s.ret == NeedsSetD then NoMatch else s.ret, s.tlb, VDRam(p, ram, roots, a, access))
  }

  /** Walk, maintain, check: the result of the access without a TLB. */
  function WalkOnce(p: Params, roots: Roots, ram: Bytes, a: Word, access: Access, plv: nat): Ret {
    var r := VDRefill(p, Qwords(ram), roots, a, access);
    if r.ps >= 12 && CheckPs(p.prcfg2, r.ps) && CheckPs(p.prcfg2, p.stlbPs)
    then MapPair(r.lo0, r.lo1, r.ps, a, access, plv, true) else NoMatch
  }

  /** Equal; but a load or fetch may find a page that the TLB does not yet know to be dirty. */
  ghost predicate SameOutcome(access: Access, x: Ret, y: Ret) {
    || x == y
    || (!access.Store? && x.Match? && y.Match? && x.phys == y.phys && x.exec == y.exec && !x.write && y.write)
  }

  // ---- Relations ---------------------------------------------------------------------------------

  /** The walking machine's memory: the same but for V bits of leaf words, of which it has set more. */
  ghost predicate Ahead(leaf: nat -> bool, ram: Bytes, ram': Bytes) {
    forall q: nat :: q % 8 == 0 ==> AheadAt(leaf(q), LoadQ(ram, q), LoadQ(ram', q))
  }

  ghost predicate AheadAt(isLeaf: bool, x: Word, y: Word) {
    if isLeaf then Kin(x, y) && FlagD(x) == FlagD(y) && (FlagV(x) ==> FlagV(y)) else x == y
  }

  /** A word in the TLB against the page tables now: D may lag behind, on a writable page. */
  ghost predicate Known(t: Word, x: Word) {
    && Kin(t, x) && FlagV(t) == FlagP(x) && (FlagD(t) ==> FlagD(x)) && (!FlagW(x) ==> FlagD(t) == FlagD(x))
  }

  ghost predicate KnownEntry(p: Params, roots: Roots, asid: nat, ram: Bytes, i: nat, t: Entry) {
    t.e ==>
      var ps := EntryPs(p, i, t);
      && t.asid == asid && ps >= 12 && CheckPs(p.prcfg2, ps) && CheckPs(p.prcfg2, p.stlbPs)
      && forall a: Word :: Canonical(a) && Covers(t.vppn, ps, a) ==> KnownPair(p, roots, ram, a, ps, t.lo0, t.lo1)
  }

  ghost predicate KnownPair(p: Params, roots: Roots, ram: Bytes, a: Word, ps: nat, lo0: Word, lo1: Word) {
    var r := Walk(p.walk, Qwords(ram), roots, a);
    r.ps == ps && Known(lo0, r.lo0) && Known(lo1, r.lo1)
  }

  ghost predicate KnownTable(p: Params, roots: Roots, asid: nat, ram: Bytes, tlb: seq<Entry>) {
    Sane(p, tlb) && forall i: nat :: i < |tlb| ==> KnownEntry(p, roots, asid, ram, i, tlb[i])
  }

  ghost predicate Setup(p: Params, roots: Roots, leaf: nat -> bool, ram: Bytes) {
    && p.stlbPs == p.walk.ptBase && SaneSizes(p.prcfg2)
    && Tidy(p.walk, Qwords(ram), leaf, roots)
  }

  // ---- Words -----------------------------------------------------------------------------------------

  /** Kin with equal V and D are equal. */
  lemma KinEqual(x: Word, y: Word)
    requires Kin(x, y) && FlagV(x) == FlagV(y) && FlagD(x) == FlagD(y)
    ensures x == y
  {
    DivDiv(x, 2, 2);
    DivDiv(y, 2, 2);
  }

  lemma SetVKin(x: Word, v: bool)
    ensures Kin(x, SetV(x, v)) && FlagV(SetV(x, v)) == v && FlagD(SetV(x, v)) == FlagD(x)
  {
    var h, d := x / 4, x / 2 % 2;
    DivDiv(x, 2, 2);
    assert x == 4 * h + 2 * d + x % 2;
    FlagsOf(h, d, x % 2);
    FlagsOf(h, d, if v then 1 else 0);
  }

  /** What the walker hands to the TLB for a word x of the page tables. */
  lemma ForcedWord(x: Word, access: Access, updated: bool)
    ensures var y := ForceV(if updated then Updated(x, access) else x);
            && Kin(x, y) && FlagV(y) == FlagP(x)
            && FlagD(y) == (FlagD(x) || (updated && access.Store? && FlagW(x)))
  {
    hide FlagV, FlagD, FlagP, FlagW, SetV, SetD, Kin;
    SetVKin(x, FlagP(x));
    var u := SetV(x, FlagP(x));
    KinSetD(u);
    SetVFlags(x, FlagP(x));
    var z := Updated(x, access);
    KinTrans(x, u, z);
    KinFields(x, z);
    SetVKin(z, FlagP(z));
    KinTrans(x, z, SetV(z, FlagP(z)));
  }

  lemma KinSetD(x: Word)
    ensures Kin(x, SetD(x)) && FlagD(SetD(x)) && FlagV(SetD(x)) == FlagV(x) && Kin(x, x)
  {
    TwoFlags(x);
  }

  lemma KinTrans(x: Word, y: Word, z: Word)
    ensures Kin(x, y) && Kin(y, z) ==> Kin(x, z)
    ensures Kin(x, y) ==> Kin(y, x)
  {
  }

  /** The check on a word the TLB knows, against the check on the word a walk hands over now. */
  lemma DecideKnown(t: Word, x: Word, y: Word, access: Access, plv: nat, phys: nat)
    requires Known(t, x) && Kin(x, y) && FlagV(y) == FlagP(x) && FlagD(y) == (FlagD(x) || (access.Store? && FlagW(x)))
    ensures var d, d' := Decide(t, access, plv, true, phys), Decide(y, access, plv, true, phys);
            && d' != NeedsSetD
            && (d != NeedsSetD ==> SameOutcome(access, d, d'))
            && (d != NeedsSetD && access.Store? && FlagW(x) ==> FlagD(x))
  {
    KinFields(t, x);
    KinFields(x, y);
    hide FlagV, FlagD, FlagP, FlagW, FlagNX, FlagNR, FlagRplv, Plv, Kin;
  }

  lemma KinFrame(x: Word, y: Word, ps: nat)
    requires Kin(x, y) && ps >= 12
    ensures Frame(x, ps) == Frame(y, ps)
  {
    KinFields(x, y);
    hide Ppn, Low;
  }

  // ---- Walks ------------------------------------------------------------------------------------------

  lemma AheadSame(leaf: nat -> bool, ram: Bytes, ram': Bytes)
    requires Ahead(leaf, ram, ram')
    ensures SameTables(leaf, Qwords(ram), Qwords(ram'))
  {
    hide LoadQ, Kin, FlagV, FlagD;
    forall q: nat | q % 8 == 0
      ensures if leaf(q) then Kin(Qwords(ram)(q), Qwords(ram')(q)) else Qwords(ram)(q) == Qwords(ram')(q)
    {
      assert AheadAt(leaf(q), LoadQ(ram, q), LoadQ(ram', q));
    }
  }

  lemma AheadSelf(leaf: nat -> bool, ram: Bytes)
    ensures Ahead(leaf, ram, ram)
  {
  }

  /** With STLBPS at the base page size, the half a translation uses is the half the walker maintains. */
  lemma UsedIsVisited(p: Params, roots: Roots, leaf: nat -> bool, ram: Bytes, a: Word)
    requires Setup(p, roots, leaf, ram) && Canonical(a)
    ensures var mem := Qwords(ram);
            var odd := OddPage(a, Walk(p.walk, mem, roots, a).ps);
            && LeafAt(p.walk, mem, roots, a, odd) == Visited(p, mem, roots, a)
            && (FlagHuge(WalkDirs(p.walk, mem, a, Root(roots, a), 4)) || odd == SelectsOdd(p, a))
  {
    hide FlagHuge, WalkDirs, HugeAddress, PteAddress, Shr, CleanTables, TidyDirs, TidyLeaf, Canonical, LdPte;
  }

  /** A half of what the walker hands over, from the half it read. */
  lemma HandedHalf(p: Params, roots: Roots, mem: Memory, a: Word, access: Access, odd: bool)
    ensures var r, f := Walk(p.walk, mem, roots, a), VDRefill(p, mem, roots, a, access);
            var updated := FlagHuge(WalkDirs(p.walk, mem, a, Root(roots, a), 4)) || odd == SelectsOdd(p, a);
            && f.ps == r.ps && Kin(WordOf(r, odd), WordOf(f, odd)) && FlagV(WordOf(f, odd)) == FlagP(WordOf(r, odd))
            && FlagD(WordOf(f, odd)) == (FlagD(WordOf(r, odd)) || (updated && access.Store? && FlagW(WordOf(r, odd))))
  {
    hide FlagHuge, WalkDirs, LdPte, LeafPs, FlagV, FlagD, FlagP, FlagW, Updated, ForceV, Kin, SelectsOdd;
    var r := Walk(p.walk, mem, roots, a);
    ForcedWord(WordOf(r, odd), access, FlagHuge(WalkDirs(p.walk, mem, a, Root(roots, a), 4)) || odd == SelectsOdd(p, a));
  }

  /** Both machines hand over the same words and visit the same entry. */
  lemma SameHandOver(p: Params, roots: Roots, leaf: nat -> bool, ram: Bytes, ram': Bytes, a: Word, access: Access)
    requires Setup(p, roots, leaf, ram) && Ahead(leaf, ram, ram') && Canonical(a)
    ensures VDRefill(p, Qwords(ram), roots, a, access) == VDRefill(p, Qwords(ram'), roots, a, access)
    ensures Visited(p, Qwords(ram), roots, a) == Visited(p, Qwords(ram'), roots, a)
  {
    hide Walk, VDRefill, Tidy, FlagV, FlagD, FlagP, FlagW, Kin, LoadQ, Visited, LeafAt, FlagHuge, WalkDirs, Canonical, SelectsOdd, SaneSizes;
    AheadSame(leaf, ram, ram');
    SameHalf(p, roots, leaf, ram, ram', a, access, false);
    SameHalf(p, roots, leaf, ram, ram', a, access, true);
    SameVisited(p, roots, leaf, ram, ram', a);
  }

  lemma SameVisited(p: Params, roots: Roots, leaf: nat -> bool, ram: Bytes, ram': Bytes, a: Word)
    requires Setup(p, roots, leaf, ram) && SameTables(leaf, Qwords(ram), Qwords(ram')) && Canonical(a)
    ensures Visited(p, Qwords(ram), roots, a) == Visited(p, Qwords(ram'), roots, a)
  {
    hide Walk, Tidy, FlagHuge, WalkDirs, HugeAddress, PteAddress, Canonical, SameTables, SelectsOdd, SaneSizes;
    WalkKin(p.walk, Qwords(ram), Qwords(ram'), leaf, roots, a, SelectsOdd(p, a));
  }

  lemma SameHalf(p: Params, roots: Roots, leaf: nat -> bool, ram: Bytes, ram': Bytes, a: Word, access: Access, odd: bool)
    requires Setup(p, roots, leaf, ram) && Ahead(leaf, ram, ram') && Canonical(a) && SameTables(leaf, Qwords(ram), Qwords(ram'))
    ensures var f, f' := VDRefill(p, Qwords(ram), roots, a, access), VDRefill(p, Qwords(ram'), roots, a, access);
            f.ps == f'.ps && WordOf(f, odd) == WordOf(f', odd)
  {
    hide Walk, VDRefill, Tidy, FlagV, FlagD, FlagP, FlagW, Kin, LoadQ, LeafAt, FlagHuge, WalkDirs, Canonical, SelectsOdd, SaneSizes, SameTables;
    var mem, mem' := Qwords(ram), Qwords(ram');
    WalkKin(p.walk, mem, mem', leaf, roots, a, odd);
    HandedHalf(p, roots, mem, a, access, odd);
    HandedHalf(p, roots, mem', a, access, odd);
    var r, r' := Walk(p.walk, mem, roots, a), Walk(p.walk, mem', roots, a);
    var f, f' := VDRefill(p, mem, roots, a, access), VDRefill(p, mem', roots, a, access);
    KinFields(WordOf(r, odd), WordOf(r', odd));
    var q := LeafAt(p.walk, mem, roots, a, odd);
    assert AheadAt(leaf(q), LoadQ(ram, q), LoadQ(ram', q));
    KinTrans(WordOf(r, odd), WordOf(f, odd), WordOf(r', odd));
    KinTrans(WordOf(f, odd), WordOf(r, odd), WordOf(r', odd));
    KinTrans(WordOf(f, odd), WordOf(r', odd), WordOf(f', odd));
    KinEqual(WordOf(f, odd), WordOf(f', odd));
  }

  // ---- A hit ---------------------------------------------------------------------------------------------

  /** A hit that does not ask for D gives the outcome of walking now, and a store hits a page whose D is set, if writable. */
  lemma HitOutcome(p: Params, roots: Roots, leaf: nat -> bool, asid: nat, ram: Bytes, tlb: seq<Entry>, a: Word, access: Access, plv: nat)
    requires Setup(p, roots, leaf, ram) && KnownTable(p, roots, asid, ram, tlb) && Canonical(a)
    ensures var first := FirstPass(p, tlb, asid, a, access, plv);
            var e := LoadQ(ram, Visited(p, Qwords(ram), roots, a));
            first.Some? && first.value != NeedsSetD ==>
              SameOutcome(access, first.value, WalkOnce(p, roots, ram, a, access, plv)) && (access.Store? && FlagW(e) ==> FlagD(e))
  {
    hide Search, Walk, VDRefill, Tidy, FlagV, FlagD, FlagP, FlagW, Kin, LoadQ, Visited, LeafAt, FlagHuge, WalkDirs, Canonical, SelectsOdd,
      SaneSizes, CheckPs, Covers, Sane, Decide, Frame, Low, Shr, BitOr, Known, SameOutcome;
    SaneTable(p, tlb);
    SearchResult(p, tlb, asid, a);
    var found := Search(p, tlb, asid, a);
    if found.At? {
      var t := tlb[found.index];
      assert KnownEntry(p, roots, asid, ram, found.index, t);
      HitPair(p, roots, leaf, ram, a, EntryPs(p, found.index, t), t.lo0, t.lo1, access, plv);
    }
  }

  lemma HitPair(p: Params, roots: Roots, leaf: nat -> bool, ram: Bytes, a: Word, ps: nat, lo0: Word, lo1: Word, access: Access, plv: nat)
    requires Setup(p, roots, leaf, ram) && Canonical(a) && KnownPair(p, roots, ram, a, ps, lo0, lo1)
    requires ps >= 12 && CheckPs(p.prcfg2, ps) && CheckPs(p.prcfg2, p.stlbPs)
    ensures var x := MapPair(lo0, lo1, ps, a, access, plv, true);
            var e := LoadQ(ram, Visited(p, Qwords(ram), roots, a));
            x != NeedsSetD ==>
              SameOutcome(access, x, WalkOnce(p, roots, ram, a, access, plv)) && (access.Store? && FlagW(e) ==> FlagD(e))
  {
    hide Walk, VDRefill, Tidy, FlagV, FlagD, FlagP, FlagW, Kin, LoadQ, Visited, LeafAt, FlagHuge, WalkDirs, Canonical, SelectsOdd,
      SaneSizes, CheckPs, Decide, Frame, Low, Shr, BitOr, SameOutcome, OddPage;
    var mem := Qwords(ram);
    var odd := OddPage(a, ps);
    var r, f := Walk(p.walk, mem, roots, a), VDRefill(p, mem, roots, a, access);
    var t, x, y := if odd then lo1 else lo0, WordOf(r, odd), WordOf(f, odd);
    UsedIsVisited(p, roots, leaf, ram, a);
    HandedHalf(p, roots, mem, a, access, odd);
    KinSelf(leaf, mem);
    WalkKin(p.walk, mem, mem, leaf, roots, a, odd);
    KinTrans(t, x, y);
    KinFrame(t, y, ps);
    DecideKnown(t, x, y, access, plv, BitOr(Frame(t, ps), Low(a, ps)));
  }

  // ---- A walk ---------------------------------------------------------------------------------------------

  /** The second pass gives the outcome of walking now. */
  lemma WalkOutcome(p: Params, roots: Roots, leaf: nat -> bool, asid: nat, ram: Bytes, tlb: seq<Entry>, a: Word, access: Access, plv: nat, rand: nat)
    requires Setup(p, roots, leaf, ram) && Sane(p, tlb) && Canonical(a)
    ensures var s := SecondPass(p, Qwords(ram), roots, tlb, asid, a, access, plv, rand);
            s.ret == WalkOnce(p, roots, ram, a, access, plv) && s.ret != NeedsSetD
  {
    hide Walk, VDRefill, Tidy, SecondPass, Sane, FlagHuge, WalkDirs, Canonical, SelectsOdd, SaneSizes, CheckPs, MapPair, RefillFrom;
    SaneTable(p, tlb);
    SecondPassFindsFill(p, Qwords(ram), roots, tlb, asid, a, access, plv, rand);
    if CheckPs(p.prcfg2, p.stlbPs) && CheckPs(p.prcfg2, VDRefill(p, Qwords(ram), roots, a, access).ps)
       && VDRefill(p, Qwords(ram), roots, a, access).ps >= 12 {
      SecondPassSettles(p, Qwords(ram), roots, tlb, asid, a, access, plv, rand);
    }
  }

  /** Maintenance only raises V and D of leaf words. */
  lemma RaisedTables(p: Params, roots: Roots, leaf: nat -> bool, ram: Bytes, a: Word, access: Access)
    requires Setup(p, roots, leaf, ram) && Canonical(a)
    ensures var ram' := VDRam(p, ram, roots, a, access);
            SameTables(leaf, Qwords(ram), Qwords(ram')) && Setup(p, roots, leaf, ram')
  {
    hide Walk, Tidy, FlagV, FlagD, FlagP, FlagW, Kin, LoadQ, Visited, LeafAt, FlagHuge, WalkDirs, Canonical, SelectsOdd, SaneSizes, VDRam;
    var mem, ram' := Qwords(ram), VDRam(p, ram, roots, a, access);
    KinSelf(leaf, mem);
    WalkKin(p.walk, mem, mem, leaf, roots, a, SelectsOdd(p, a));
    forall q: nat | q % 8 == 0
      ensures if leaf(q) then Kin(mem(q), Qwords(ram')(q)) else mem(q) == Qwords(ram')(q)
    {
      MaintainedWord(p, ram, leaf, roots, a, access, q);
      KinSame(LoadQ(ram, q));
    }
    TidyKept(p.walk, mem, Qwords(ram'), leaf, roots);
  }

  lemma KinSame(x: Word)
    ensures Kin(x, x)
  {
  }

  lemma KnownRaise(t: Word, x: Word, x': Word)
    requires Known(t, x) && Kin(x, x') && (FlagD(x) ==> FlagD(x')) && (!FlagW(x) ==> FlagD(x') == FlagD(x))
    ensures Known(t, x')
  {
    hide FlagV, FlagD, FlagP, FlagW, Kin;
    KinFields(x, x');
    KinTrans(t, x, x');
  }

  /** What the TLB knows of a word stays known when a walk raises the tables. */
  lemma KnownStays(p: Params, roots: Roots, leaf: nat -> bool, ram: Bytes, a: Word, access: Access, b: Word, odd: bool, t: Word)
    requires Setup(p, roots, leaf, ram) && Canonical(a) && Canonical(b)
    requires Known(t, WordOf(Walk(p.walk, Qwords(ram), roots, b), odd))
    ensures var r, r' := Walk(p.walk, Qwords(ram), roots, b), Walk(p.walk, Qwords(VDRam(p, ram, roots, a, access)), roots, b);
            r'.ps == r.ps && Known(t, WordOf(r', odd))
  {
    hide Walk, Tidy, FlagV, FlagD, FlagP, FlagW, Kin, LoadQ, Visited, LeafAt, FlagHuge, WalkDirs, Canonical, SelectsOdd, SaneSizes, VDRam, Known;
    var mem, mem' := Qwords(ram), Qwords(VDRam(p, ram, roots, a, access));
    RaisedTables(p, roots, leaf, ram, a, access);
    WalkKin(p.walk, mem, mem', leaf, roots, b, odd);
    MaintainedWord(p, ram, leaf, roots, a, access, LeafAt(p.walk, mem, roots, b, odd));
    KnownRaise(t, WordOf(Walk(p.walk, mem, roots, b), odd), WordOf(Walk(p.walk, mem', roots, b), odd));
  }

  /** The half just handed over is known of the tables the walk leaves. */
  lemma HandedKnown(p: Params, roots: Roots, leaf: nat -> bool, ram: Bytes, a: Word, access: Access, odd: bool)
    requires Setup(p, roots, leaf, ram) && Canonical(a)
    ensures var f, r' := VDRefill(p, Qwords(ram), roots, a, access), Walk(p.walk, Qwords(VDRam(p, ram, roots, a, access)), roots, a);
            r'.ps == f.ps && Known(WordOf(f, odd), WordOf(r', odd))
  {
    hide Walk, VDRefill, Tidy, FlagV, FlagD, FlagP, FlagW, Kin, LoadQ, Visited, FlagHuge, WalkDirs, Canonical, SelectsOdd, SaneSizes, VDRam,
      PteAddress, HugeAddress;
    var mem, mem' := Qwords(ram), Qwords(VDRam(p, ram, roots, a, access));
    RaisedTables(p, roots, leaf, ram, a, access);
    WalkKin(p.walk, mem, mem', leaf, roots, a, odd);
    HandedHalf(p, roots, mem, a, access, odd);
    MaintainedWord(p, ram, leaf, roots, a, access, LeafAt(p.walk, mem, roots, a, odd));
    var x, x', f := WordOf(Walk(p.walk, mem, roots, a), odd), WordOf(Walk(p.walk, mem', roots, a), odd),
                    WordOf(VDRefill(p, mem, roots, a, access), odd);
    KinFields(x, x');
    KinTrans(x, f, x);
    KinTrans(f, x, x');
  }

  // ---- The table after a walk ---------------------------------------------------------------------------

  lemma EntryStays(p: Params, roots: Roots, leaf: nat -> bool, asid: nat, ram: Bytes, a: Word, access: Access, i: nat, t: Entry)
    requires Setup(p, roots, leaf, ram) && Canonical(a) && KnownEntry(p, roots, asid, ram, i, t)
    ensures KnownEntry(p, roots, asid, VDRam(p, ram, roots, a, access), i, t)
  {
    hide Walk, Tidy, Canonical, SaneSizes, VDRam, Known, Covers, CheckPs, Setup;
    var ram' := VDRam(p, ram, roots, a, access);
    if t.e {
      var ps := EntryPs(p, i, t);
      forall b: Word | Canonical(b) && Covers(t.vppn, ps, b)
        ensures KnownPair(p, roots, ram', b, ps, t.lo0, t.lo1)
      {
        assert KnownPair(p, roots, ram, b, ps, t.lo0, t.lo1);
        KnownStays(p, roots, leaf, ram, a, access, b, false, t.lo0);
        KnownStays(p, roots, leaf, ram, a, access, b, true, t.lo1);
      }
    }
  }

  lemma FilledKnown(p: Params, roots: Roots, leaf: nat -> bool, asid: nat, ram: Bytes, a: Word, access: Access, rand: nat, old_: Entry)
    requires Setup(p, roots, leaf, ram) && Canonical(a)
    requires var ps := VDRefill(p, Qwords(ram), roots, a, access).ps; CheckPs(p.prcfg2, ps) && CheckPs(p.prcfg2, p.stlbPs)
    ensures var f := VDRefill(p, Qwords(ram), roots, a, access);
            var i := Victim(p, EntryHi(a), f.ps, rand);
            KnownEntry(p, roots, asid, VDRam(p, ram, roots, a, access), i, FillEntry(old_, i, asid, Vppn(EntryHi(a)), f))
  {
    hide Walk, VDRefill, Tidy, Canonical, VDRam, Known, CheckPs, Victim, FlagG, Vppn, PairNumber, Shr, Setup, SaneSizes;
    var f, ram' := VDRefill(p, Qwords(ram), roots, a, access), VDRam(p, ram, roots, a, access);
    var i := Victim(p, EntryHi(a), f.ps, rand);
    var t := FillEntry(old_, i, asid, Vppn(EntryHi(a)), f);
    SizeRange(p, roots, leaf, ram, f.ps);
    VictimPlace(p, EntryHi(a), f.ps, rand);
    TagKept(a);
    TagOfAddress(a, f.ps);
    HandedKnown(p, roots, leaf, ram, a, access, false);
    HandedKnown(p, roots, leaf, ram, a, access, true);
    RaisedTables(p, roots, leaf, ram, a, access);
    forall b: Word | Canonical(b) && Covers(t.vppn, f.ps, b)
      ensures KnownPair(p, roots, ram', b, f.ps, t.lo0, t.lo1)
    {
      PairWalk(p, roots, leaf, ram', a, b);
    }
  }

  lemma SizeRange(p: Params, roots: Roots, leaf: nat -> bool, ram: Bytes, ps: nat)
    requires Setup(p, roots, leaf, ram) && CheckPs(p.prcfg2, ps)
    ensures 12 <= ps <= 39
  {
  }

  lemma PairWalk(p: Params, roots: Roots, leaf: nat -> bool, ram: Bytes, a: Word, b: Word)
    requires Setup(p, roots, leaf, ram) && Canonical(a) && Canonical(b)
    requires var ps := Walk(p.walk, Qwords(ram), roots, a).ps; ps <= 46 && PairNumber(a, ps) == PairNumber(b, ps)
    ensures Walk(p.walk, Qwords(ram), roots, b) == Walk(p.walk, Qwords(ram), roots, a)
    ensures WalkDirs(p.walk, Qwords(ram), b, Root(roots, b), 4) == WalkDirs(p.walk, Qwords(ram), a, Root(roots, a), 4)
  {
    hide Walk, TidyDirs, TidyLeaf, Canonical, SaneSizes, PairNumber, CleanTables, Ordered, WalkDirs;
    WalkAgree(p.walk, Qwords(ram), roots, a, b);
  }

  lemma WalkKeepsTable(p: Params, roots: Roots, leaf: nat -> bool, asid: nat, ram: Bytes, tlb: seq<Entry>, a: Word, access: Access, plv: nat, rand: nat)
    requires Setup(p, roots, leaf, ram) && KnownTable(p, roots, asid, ram, tlb) && IsTable(tlb) && Canonical(a)
    ensures KnownTable(p, roots, asid, VDRam(p, ram, roots, a, access), SecondPass(p, Qwords(ram), roots, tlb, asid, a, access, plv, rand).tlb)
  {
    hide Search, VDRefill, VDRam, Tidy, Canonical, SaneSizes, CheckPs, Covers, FlagG, MapPair, Setup, Sane, KnownEntry, Victim, FillEntry, Vppn;
    var dropped := InvalidatePageAsidOrG(p, tlb, asid, a);
    var f, ram' := VDRefill(p, Qwords(ram), roots, a, access), VDRam(p, ram, roots, a, access);
    var filled := TlbFill(p, dropped, asid, EntryHi(a), f, rand);
    ClearKeepsSane(p, tlb, dropped);
    FillKeepsSane(p, dropped, asid, EntryHi(a), f, rand);
    var i := Victim(p, EntryHi(a), f.ps, rand);
    if CheckPs(p.prcfg2, f.ps) && CheckPs(p.prcfg2, p.stlbPs) {
      FilledKnown(p, roots, leaf, asid, ram, a, access, rand, dropped[i]);
    }
    forall j: nat | j < |filled|
      ensures KnownEntry(p, roots, asid, ram', j, filled[j])
    {
      assert KnownEntry(p, roots, asid, ram, j, tlb[j]);
      EntryStays(p, roots, leaf, asid, ram, a, access, j, tlb[j]);
      ClearedKnown(p, roots, asid, ram', j, tlb[j]);
    }
  }

  lemma ClearedKnown(p: Params, roots: Roots, asid: nat, ram: Bytes, i: nat, t: Entry)
    ensures KnownEntry(p, roots, asid, ram, i, Cleared(t))
  {
  }

  lemma DropKeepsTable(p: Params, roots: Roots, asid: nat, ram: Bytes, tlb: seq<Entry>, tlb': seq<Entry>)
    requires KnownTable(p, roots, asid, ram, tlb) && OnlyClears(tlb, tlb')
    ensures KnownTable(p, roots, asid, ram, tlb')
  {
    hide Sane, KnownEntry;
    ClearKeepsSane(p, tlb, tlb');
    forall j: nat | j < |tlb'|
      ensures KnownEntry(p, roots, asid, ram, j, tlb'[j])
    {
      assert KnownEntry(p, roots, asid, ram, j, tlb[j]);
      ClearedKnown(p, roots, asid, ram, j, tlb[j]);
    }
  }

  // ---- The memories after an access -----------------------------------------------------------------------

  lemma RaisedAhead(x: Word, y: Word, x': Word, y': Word, access: Access)
    requires AheadAt(true, x, y) && Raised(x, x', access) && Raised(y, y', access)
    ensures AheadAt(true, x', y')
  {
    hide FlagV, FlagD, FlagP, FlagW, Kin;
    KinFields(x, y);
    KinTrans(x, x', x);
    KinTrans(x', x, y);
    KinTrans(x', y, y');
  }

  lemma WalkerAhead(x: Word, y: Word, y': Word, access: Access)
    requires AheadAt(true, x, y) && Raised(y, y', access) && (access.Store? && FlagW(x) ==> FlagD(x))
    ensures AheadAt(true, x, y')
  {
    hide FlagV, FlagD, FlagP, FlagW, Kin;
    KinFields(x, y);
    KinTrans(x, y, y');
  }

  /** The walking machine stays ahead, whether the other one walked too or hit. */
  lemma StaysAhead(p: Params, roots: Roots, leaf: nat -> bool, ram: Bytes, ram': Bytes, a: Word, access: Access, walked: bool)
    requires Setup(p, roots, leaf, ram) && Ahead(leaf, ram, ram') && Canonical(a)
    requires var e := LoadQ(ram, Visited(p, Qwords(ram), roots, a));
             walked || (access.Store? && FlagW(e) ==> FlagD(e))
    ensures Ahead(leaf, if walked then VDRam(p, ram, roots, a, access) else ram, VDRam(p, ram', roots, a, access))
  {
    hide Walk, Tidy, FlagV, FlagD, FlagP, FlagW, Kin, LoadQ, Visited, LeafAt, FlagHuge, WalkDirs, Canonical, SelectsOdd, SaneSizes, VDRam, Raised,
      AheadAt;
    AheadSame(leaf, ram, ram');
    TidyKept(p.walk, Qwords(ram), Qwords(ram'), leaf, roots);
    SameVisited(p, roots, leaf, ram, ram', a);
    WalkKin(p.walk, Qwords(ram), Qwords(ram'), leaf, roots, a, SelectsOdd(p, a));
    var v := Visited(p, Qwords(ram), roots, a);
    forall q: nat | q % 8 == 0
      ensures AheadAt(leaf(q), LoadQ(if walked then VDRam(p, ram, roots, a, access) else ram, q), LoadQ(VDRam(p, ram', roots, a, access), q))
    {
      assert AheadAt(leaf(q), LoadQ(ram, q), LoadQ(ram', q));
      MaintainedWord(p, ram, leaf, roots, a, access, q);
      MaintainedWord(p, ram', leaf, roots, a, access, q);
      if q == v {
        if walked {
          RaisedAhead(LoadQ(ram, q), LoadQ(ram', q), LoadQ(VDRam(p, ram, roots, a, access), q), LoadQ(VDRam(p, ram', roots, a, access), q), access);
        } else {
          WalkerAhead(LoadQ(ram, q), LoadQ(ram', q), LoadQ(VDRam(p, ram', roots, a, access), q), access);
        }
      }
    }
  }

  // ---- Runs --------------------------------------------------------------------------------------------------

  /** One access by both machines. */
  lemma TouchBoth(p: Params, roots: Roots, leaf: nat -> bool, asid: nat, tlb: seq<Entry>, ram: Bytes, ram': Bytes,
                  a: Word, access: Access, plv: nat, rand: nat)
    requires Setup(p, roots, leaf, ram) && KnownTable(p, roots, asid, ram, tlb) && IsTable(tlb) && Ahead(leaf, ram, ram') && Canonical(a)
    ensures var o := Touched(p, roots, asid, tlb, ram, a, access, plv, rand);
            && SameOutcome(access, o.ret, WalkOnce(p, roots, ram', a, access, plv))
            && Setup(p, roots, leaf, o.ram) && KnownTable(p, roots, asid, o.ram, o.tlb)
            && Ahead(leaf, o.ram, VDRam(p, ram', roots, a, access))
  {
    hide Setup, KnownTable, Ahead, Canonical, VDRam, VDRefill, SecondPass, FirstPass, LoadQ, FlagW, FlagD, Visited, MapPair, CheckPs, IsTable;
    assert WalkOnce(p, roots, ram', a, access, plv) == WalkOnce(p, roots, ram, a, access, plv) by { SameHandOver(p, roots, leaf, ram, ram', a, access); }
    var first := FirstPass(p, tlb, asid, a, access, plv);
    if first.Some? && first.value != NeedsSetD {
      HitOutcome(p, roots, leaf, asid, ram, tlb, a, access, plv);
      StaysAhead(p, roots, leaf, ram, ram', a, access, false);
    } else {
      assert Sane(p, tlb) by { TableSane(p, roots, asid, ram, tlb); }
      WalkOutcome(p, roots, leaf, asid, ram, tlb, a, access, plv, rand);
      WalkKeepsTable(p, roots, leaf, asid, ram, tlb, a, access, plv, rand);
      RaisedTables(p, roots, leaf, ram, a, access);
      StaysAhead(p, roots, leaf, ram, ram', a, access, true);
    }
  }

  lemma TableSane(p: Params, roots: Roots, asid: nat, ram: Bytes, tlb: seq<Entry>)
    requires KnownTable(p, roots, asid, ram, tlb)
    ensures Sane(p, tlb) && IsTable(tlb)
  {
  }

  /** An access, or an invalidation. */
  datatype VDStep =
    | Touch(a: Word, access: Access, plv: nat, rand: nat)
    | Drop(op: TableStep)

  predicate Clears(op: TableStep) { !op.Write? && !op.Fill? && !op.Walked? && !op.Maintained? }

  ghost predicate Proper(steps: seq<VDStep>) {
    forall i :: 0 <= i < |steps| ==> if steps[i].Touch? then Canonical(steps[i].a) else Clears(steps[i].op)
  }

  /** The accesses of a run with their results, on the machine with a TLB, and the memory it leaves. */
  function TlbRun(p: Params, roots: Roots, asid: nat, tlb: seq<Entry>, ram: Bytes, steps: seq<VDStep>): (seq<Ret>, Bytes)
    requires IsTable(tlb)
    decreases |steps|
  {
    if steps == [] then ([], ram)
    else
      match steps[0]
      case Touch(a, access, plv, rand) =>
        var o := Touched(p, roots, asid, tlb, ram, a, access, plv, rand);
        var rest := TlbRun(p, roots, asid, o.tlb, o.ram, steps[1..]);
        ([o.ret] + rest.0, rest.1)
      case Drop(op) => TlbRun(p, roots, asid, TableAfter(p, tlb, op), ram, steps[1..])
  }

  /** The same on the machine that walks and maintains on every access. */
  function WalkerRun(p: Params, roots: Roots, ram: Bytes, steps: seq<VDStep>): (seq<Ret>, Bytes)
    decreases |steps|
  {
    if steps == [] then ([], ram)
    else
      match steps[0]
      case Touch(a, access, plv, _) =>
        var rest := WalkerRun(p, roots, VDRam(p, ram, roots, a, access), steps[1..]);
        ([WalkOnce(p, roots, ram, a, access, plv)] + rest.0, rest.1)
      case Drop(_) => WalkerRun(p, roots, ram, steps[1..])
  }

  function Accesses(steps: seq<VDStep>): seq<Access>
    decreases |steps|
  {
    if steps == [] then [] else (if steps[0].Touch? then [steps[0].access] else []) + Accesses(steps[1..])
  }

  ghost predicate SameResults(kinds: seq<Access>, x: seq<Ret>, y: seq<Ret>) {
    |kinds| == |x| == |y| && forall i :: 0 <= i < |x| ==> SameOutcome(kinds[i], x[i], y[i])
  }

  lemma SameResultsCons(k: Access, ks: seq<Access>, x: Ret, xs: seq<Ret>, y: Ret, ys: seq<Ret>)
    requires SameOutcome(k, x, y) && SameResults(ks, xs, ys)
    ensures SameResults([k] + ks, [x] + xs, [y] + ys)
  {
    hide SameOutcome;
  }

  /** Transparency with V/D maintenance: over every run of accesses and invalidations, for all victims, every store gets
      exactly what walking and maintaining every time gives, and so does every load and fetch but for a dirty bit it
      need not know yet; the memories end up equal but for V bits of leaf words. */
  lemma {:induction false} MaintainedTransparency(p: Params, roots: Roots, leaf: nat -> bool, asid: nat, tlb: seq<Entry>, ram: Bytes, ram': Bytes, steps: seq<VDStep>)
    requires Setup(p, roots, leaf, ram) && KnownTable(p, roots, asid, ram, tlb) && IsTable(tlb) && Ahead(leaf, ram, ram') && Proper(steps)
    ensures var x, y := TlbRun(p, roots, asid, tlb, ram, steps), WalkerRun(p, roots, ram', steps);
            SameResults(Accesses(steps), x.0, y.0) && Ahead(leaf, x.1, y.1)
    decreases |steps|
  {
    hide Setup, KnownTable, Ahead, Canonical, Touched, WalkOnce, VDRam, SameOutcome, SameResults, TableAfter;
    if steps == [] {
      NoResults();
    } else {
      var rest := steps[1..];
      assert Proper(rest);
      assert if steps[0].Touch? then Canonical(steps[0].a) else Clears(steps[0].op);
      match steps[0]
      case Touch(a, access, plv, rand) =>
        var o := Touched(p, roots, asid, tlb, ram, a, access, plv, rand);
        TouchBoth(p, roots, leaf, asid, tlb, ram, ram', a, access, plv, rand);
        var ram2 := VDRam(p, ram', roots, a, access);
        MaintainedTransparency(p, roots, leaf, asid, o.tlb, o.ram, ram2, rest);
        SameResultsCons(access, Accesses(rest), o.ret, TlbRun(p, roots, asid, o.tlb, o.ram, rest).0,
                        WalkOnce(p, roots, ram', a, access, plv), WalkerRun(p, roots, ram2, rest).0);
      case Drop(op) =>
        assert [] + Accesses(rest) == Accesses(rest);
        DropClears(p, tlb, op);
        DropKeepsTable(p, roots, asid, ram, tlb, TableAfter(p, tlb, op));
        MaintainedTransparency(p, roots, leaf, asid, TableAfter(p, tlb, op), ram, ram', rest);
    }
  }

  lemma NoResults()
    ensures SameResults([], [], [])
  {
  }

  lemma DropClears(p: Params, tlb: seq<Entry>, op: TableStep)
    requires IsTable(tlb) && Clears(op)
    ensures OnlyClears(tlb, TableAfter(p, tlb, op))
  {
    hide Covers, FlagG;
  }

  /** From an empty TLB and one memory. */
  lemma FromPowerOn(p: Params, roots: Roots, leaf: nat -> bool, asid: nat, tlb: seq<Entry>, ram: Bytes, steps: seq<VDStep>)
    requires Setup(p, roots, leaf, ram) && Empty(tlb) && Proper(steps)
    ensures var x, y := TlbRun(p, roots, asid, tlb, ram, steps), WalkerRun(p, roots, ram, steps);
            SameResults(Accesses(steps), x.0, y.0) && Ahead(leaf, x.1, y.1)
  {
    hide Setup, Ahead, Proper, TlbRun, WalkerRun, SameResults;
    AheadSelf(leaf, ram);
    assert KnownTable(p, roots, asid, ram, tlb) by { EmptyKnown(p, roots, asid, ram, tlb); }
    MaintainedTransparency(p, roots, leaf, asid, tlb, ram, ram, steps);
  }

  lemma EmptyKnown(p: Params, roots: Roots, asid: nat, ram: Bytes, tlb: seq<Entry>)
    requires Empty(tlb)
    ensures KnownTable(p, roots, asid, ram, tlb)
  {
  }

  /** One-level tables with aligned roots meet the assumptions, whatever their entries. */
  lemma SetupCanHold(base: nat, width: nat, roots: Roots, ram: Bytes)
    requires 12 <= base < 32 && 1 <= width <= 30 && AlignedRoot(roots.pgdl, width) && AlignedRoot(roots.pgdh, width)
    ensures Setup(Params(Aliasing.OneLevel(base, width), 0x3fff_f000, base), roots, (q: nat) => true, ram)
  {
    hide LoadQ, Canonical, SaneSizes, FlagHuge, PteAddress, Ordered, Pow2;
    var c, mem := Aliasing.OneLevel(base, width), Qwords(ram);
    SupportedSizes();
    assert Ordered(c) by { Aliasing.OneLevelOrdered(base, width); }
    forall a: Word
      ensures CleanDirs(c, mem, a, Root(roots, a), 4) && TidyDirs(c, mem, (q: nat) => true, a, Root(roots, a), 4)
      ensures TidyLeaf(c, (q: nat) => true, a, WalkDirs(c, mem, a, Root(roots, a), 4))
    {
      Aliasing.NoDirectories(base, width, mem, a, Root(roots, a));
      FlatTables(base, width, mem, a, Root(roots, a));
    }
  }

  /** A table of 2^width entries of eight bytes starts at a multiple of its size. */
  predicate AlignedRoot(root: Word, width: nat) { root % Pow2(width + 3) == 0 && root < TWO48 && !FlagHuge(root) }

  lemma FlatTables(base: nat, width: nat, mem: Memory, a: Word, root: Word)
    requires 12 <= base < 32 && 1 <= width && AlignedRoot(root, width)
    ensures var c := Aliasing.OneLevel(base, width);
            TidyDirs(c, mem, (q: nat) => true, a, root, 4) && TidyLeaf(c, (q: nat) => true, a, WalkDirs(c, mem, a, root, 4))
  {
    hide Pow2, DirAddress, PteAddress, FlagHuge, WalkDirs;
    var c := Aliasing.OneLevel(base, width);
    assert TidyDirs(c, mem, (q: nat) => true, a, root, 2);
    Aliasing.NoDirectories(base, width, mem, a, root);
    FlatAddress(base, width, a, root, false);
    FlatAddress(base, width, a, root, true);
  }

  /** Where the leaf words lie in a one-level table. */
  lemma FlatAddress(base: nat, width: nat, a: Word, root: Word, odd: bool)
    requires 1 <= width && AlignedRoot(root, width)
    ensures var index := Index(a, base, width);
            var k, q := index - index % 2 + (if odd then 1 else 0), PteAddress(Aliasing.OneLevel(base, width), a, root, odd);
            k < Pow2(width) && q == root + k * 8 && q % TWO48 % 8 == 0
  {
    hide Shr, Low, Pow2, BitOr, FlagHuge;
    ShrLow(Shr(a, base), width);
    var index := Index(a, base, width);
    var k := index - index % 2 + if odd then 1 else 0;
    Aliasing.SmallPowers();
    assert k < Pow2(width) by { EvenBelow(index, width); }
    assert Pow2(width + 3) == Pow2(width) * 8 by { Pow2Add(width, 3); }
    OrDisjoint(root, k * 8, width + 3);
    EighthOf(root, Pow2(width), k);
  }

  lemma EvenBelow(x: nat, k: nat)
    requires k >= 1 && x < Pow2(k)
    ensures x - x % 2 + 1 < Pow2(k)
  {
    hide Pow2;
    Halves(x, k);
  }

  lemma EighthOf(x: nat, m: int, k: nat)
    requires m > 0 && x % (m * 8) == 0
    ensures (x + k * 8) % TWO48 % 8 == 0
  {
    var q := x / (m * 8);
    assert x == q * (m * 8);
    MulAssoc(q, m, 8);
    var y := q * m + k;
    var z := y * 8 / TWO48;
    assert y * 8 % TWO48 == (y - z * (TWO48 / 8)) * 8;
  }
}
