/**
 When the dirty bit lags, and when it cannot.  The machine with a TLB and the one that walks on every access agree on
 every result of every run exactly when no leaf word that is writable, clean and open to a load or a fetch serves
 two pages.
 */
module MaintainedExact {
  import opened Words
  import opened PageWalk
  import opened Tlb
  import opened TlbRuns
  import opened SetVD
  import opened Mmu
  import opened Reachable
  import opened MaintainedWalk
  import opened MaintainedRuns

  /** Some load or fetch can succeed through the word. */
  predicate Reaches(w: Word) { FlagP(w) && !(FlagNR(w) && FlagNX(w)) }

  /** The leaf word that a uses. */
  function Used(p: Params, roots: Roots, ram: Bytes, a: Word): Word {
    var r := Walk(p.walk, Qwords(ram), roots, a);
    WordOf(r, OddPage(a, r.ps))
  }

  /** The page of a can be cached, and read or fetched from, before its D is set. */
  predicate Exposed(p: Params, roots: Roots, ram: Bytes, a: Word) {
    var w := Used(p, roots, ram, a);
    && CheckPs(p.prcfg2, Walk(p.walk, Qwords(ram), roots, a).ps) && CheckPs(p.prcfg2, p.stlbPs)
    && Reaches(w) && FlagW(w) && !FlagD(w)
  }

  /** One pair, and but for a huge page one half of it. */
  predicate SamePage(p: Params, roots: Roots, ram: Bytes, a: Word, b: Word) {
    var ps := Walk(p.walk, Qwords(ram), roots, a).ps;
    && PairNumber(a, ps) == PairNumber(b, ps)
    && (FlagHuge(WalkDirs(p.walk, Qwords(ram), a, Root(roots, a), 4)) || SelectsOdd(p, a) == SelectsOdd(p, b))
  }

  /** An exposed leaf word serves one page. */
  ghost predicate NoSharing(p: Params, roots: Roots, ram: Bytes) {
    forall a: Word, b: Word ::
      Canonical(a) && Canonical(b) && Exposed(p, roots, ram, a) && Visited(p, Qwords(ram), roots, a) == Visited(p, Qwords(ram), roots, b)
      ==> SamePage(p, roots, ram, a, b)
  }

  /** The entry knows D of the word that each address it covers uses, if a result can show it. */
  ghost predicate ExactEntry(p: Params, roots: Roots, ram: Bytes, i: nat, t: Entry) {
    t.e ==> forall a: Word :: Canonical(a) && Covers(t.vppn, EntryPs(p, i, t), a) ==> ExactHalf(p, roots, ram, a, t.lo0, t.lo1)
  }

  ghost predicate ExactHalf(p: Params, roots: Roots, ram: Bytes, a: Word, lo0: Word, lo1: Word) {
    var w := Used(p, roots, ram, a);
    Reaches(w) ==> FlagD(if OddPage(a, Walk(p.walk, Qwords(ram), roots, a).ps) then lo1 else lo0) == FlagD(w)
  }

  ghost predicate ExactTable(p: Params, roots: Roots, ram: Bytes, tlb: seq<Entry>) {
    forall i: nat :: i < |tlb| ==> ExactEntry(p, roots, ram, i, tlb[i])
  }

  // ---- What a walk leaves ---------------------------------------------------------------------------

  /** The used word after a walk for a: raised if b uses the word that the walk visits, else as it was. */
  lemma UsedAfter(p: Params, roots: Roots, leaf: nat -> bool, ram: Bytes, a: Word, access: Access, b: Word)
    requires Setup(p, roots, leaf, ram) && Canonical(a) && Canonical(b)
    ensures var ram', mem := VDRam(p, ram, roots, a, access), Qwords(ram);
            var w, w', r, r' := Used(p, roots, ram, b), Used(p, roots, ram', b), Walk(p.walk, mem, roots, b), Walk(p.walk, Qwords(ram'), roots, b);
            && r'.ps == r.ps && Kin(w, w') && Visited(p, Qwords(ram'), roots, b) == Visited(p, mem, roots, b)
            && FlagD(w') == (FlagD(w) || (Visited(p, mem, roots, b) == Visited(p, mem, roots, a) && access.Store? && FlagW(w)))
            && FlagHuge(WalkDirs(p.walk, Qwords(ram'), b, Root(roots, b), 4)) == FlagHuge(WalkDirs(p.walk, mem, b, Root(roots, b), 4))
  {
    hide Walk, Tidy, FlagV, FlagD, FlagP, FlagW, Kin, LoadQ, Visited, LeafAt, FlagHuge, WalkDirs, Canonical, SelectsOdd, SaneSizes, VDRam, OddPage,
      SameTables;
    var mem, mem' := Qwords(ram), Qwords(VDRam(p, ram, roots, a, access));
    RaisedTables(p, roots, leaf, ram, a, access);
    SameVisited(p, roots, leaf, ram, VDRam(p, ram, roots, a, access), b);
    UsedIsVisited(p, roots, leaf, ram, b);
    WalkKin(p.walk, mem, mem', leaf, roots, b, OddPage(b, Walk(p.walk, mem, roots, b).ps));
    MaintainedWord(p, ram, leaf, roots, a, access, Visited(p, mem, roots, b));
  }

  lemma ReachesKin(x: Word, y: Word)
    requires Kin(x, y)
    ensures Reaches(x) == Reaches(y) && FlagW(x) == FlagW(y)
  {
    hide FlagP, FlagW, FlagNR, FlagNX, Kin;
    KinFields(x, y);
  }

  /** A walk exposes nothing new, so sharing does not come about. */
  lemma NoSharingKept(p: Params, roots: Roots, leaf: nat -> bool, ram: Bytes, a: Word, access: Access)
    requires Setup(p, roots, leaf, ram) && NoSharing(p, roots, ram) && Canonical(a)
    ensures NoSharing(p, roots, VDRam(p, ram, roots, a, access))
  {
    hide Walk, Setup, Used, FlagHuge, WalkDirs, Canonical, PairNumber, Kin, FlagD, FlagW, Reaches, Visited, VDRam, SelectsOdd, CheckPs;
    var ram' := VDRam(p, ram, roots, a, access);
    forall b: Word, c: Word
      | Canonical(b) && Canonical(c) && Visited(p, Qwords(ram'), roots, b) == Visited(p, Qwords(ram'), roots, c) && Exposed(p, roots, ram', b)
      ensures SamePage(p, roots, ram', b, c)
    {
      UsedAfter(p, roots, leaf, ram, a, access, b);
      UsedAfter(p, roots, leaf, ram, a, access, c);
      ReachesKin(Used(p, roots, ram, b), Used(p, roots, ram', b));
      assert SamePage(p, roots, ram, b, c);
    }
  }

  // ---- A hit --------------------------------------------------------------------------------------

  /** Where D is known, or cannot show, the check on the TLB's word is the check on what a walk hands over. */
  lemma DecideExact(t: Word, x: Word, y: Word, access: Access, plv: nat, phys: nat)
    requires Known(t, x) && (Reaches(x) ==> FlagD(t) == FlagD(x))
    requires Kin(x, y) && FlagV(y) == FlagP(x) && FlagD(y) == (FlagD(x) || (access.Store? && FlagW(x)))
    ensures var d, d' := Decide(t, access, plv, true, phys), Decide(y, access, plv, true, phys);
            d != NeedsSetD ==> d == d'
  {
    KinFields(t, x);
    KinFields(x, y);
    hide FlagV, FlagD, FlagP, FlagW, FlagNX, FlagNR, FlagRplv, Plv, Kin;
  }

  lemma HitPairExact(p: Params, roots: Roots, leaf: nat -> bool, ram: Bytes, a: Word, ps: nat, lo0: Word, lo1: Word, access: Access, plv: nat)
    requires Setup(p, roots, leaf, ram) && Canonical(a) && KnownPair(p, roots, ram, a, ps, lo0, lo1) && ExactHalf(p, roots, ram, a, lo0, lo1)
    requires ps >= 12 && CheckPs(p.prcfg2, ps) && CheckPs(p.prcfg2, p.stlbPs)
    ensures var x := MapPair(lo0, lo1, ps, a, access, plv, true);
            x != NeedsSetD ==> x == WalkOnce(p, roots, ram, a, access, plv)
  {
    hide Walk, VDRefill, Tidy, FlagV, FlagD, FlagP, FlagW, Kin, LoadQ, Visited, LeafAt, FlagHuge, WalkDirs, Canonical, SelectsOdd,
      SaneSizes, CheckPs, Decide, Frame, Low, Shr, BitOr, OddPage, Known, Reaches;
    var mem := Qwords(ram);
    var odd := OddPage(a, ps);
    var r, f := Walk(p.walk, mem, roots, a), VDRefill(p, mem, roots, a, access);
    var t, x, y := if odd then lo1 else lo0, WordOf(r, odd), WordOf(f, odd);
    UsedIsVisited(p, roots, leaf, ram, a);
    HandedHalf(p, roots, mem, a, access, odd);
    KnownKin(t, x);
    KinTrans(t, x, y);
    KinFrame(t, y, ps);
    DecideExact(t, x, y, access, plv, BitOr(Frame(t, ps), Low(a, ps)));
  }

  lemma KnownKin(t: Word, x: Word)
    requires Known(t, x)
    ensures Kin(t, x)
  {
  }

  lemma HitExact(p: Params, roots: Roots, leaf: nat -> bool, asid: nat, ram: Bytes, tlb: seq<Entry>, a: Word, access: Access, plv: nat)
    requires Setup(p, roots, leaf, ram) && KnownTable(p, roots, asid, ram, tlb) && ExactTable(p, roots, ram, tlb) && Canonical(a) && IsTable(tlb)
    ensures var first := FirstPass(p, tlb, asid, a, access, plv);
            first.Some? && first.value != NeedsSetD ==> first.value == WalkOnce(p, roots, ram, a, access, plv)
  {
    hide Search, Walk, WalkOnce, Canonical, SaneSizes, CheckPs, Covers, Sane, MapPair, KnownPair, ExactHalf, Setup;
    SearchResult(p, tlb, asid, a);
    var found := Search(p, tlb, asid, a);
    if found.At? {
      var t := tlb[found.index];
      assert KnownEntry(p, roots, asid, ram, found.index, t) && ExactEntry(p, roots, ram, found.index, t);
      HitPairExact(p, roots, leaf, ram, a, EntryPs(p, found.index, t), t.lo0, t.lo1, access, plv);
    }
  }

  // ---- A walk ---------------------------------------------------------------------------------------

  /** An entry that survives the invalidation of a's page covers no address that shares a's leaf word, if that is exposed. */
  lemma SurvivorStays(p: Params, roots: Roots, leaf: nat -> bool, asid: nat, ram: Bytes, a: Word, access: Access, i: nat, t: Entry)
    requires Setup(p, roots, leaf, ram) && NoSharing(p, roots, ram) && Canonical(a)
    requires KnownEntry(p, roots, asid, ram, i, t) && ExactEntry(p, roots, ram, i, t)
    requires t.e ==> !Covers(t.vppn, EntryPs(p, i, t), a)
    ensures ExactEntry(p, roots, VDRam(p, ram, roots, a, access), i, t)
  {
    hide Walk, FlagD, FlagW, Canonical, VDRam, Known, CheckPs, Setup, Visited, FlagHuge, WalkDirs, PairNumber, Shr, Reaches, Used, OddPage, SelectsOdd,
      Kin;
    var ram' := VDRam(p, ram, roots, a, access);
    if t.e {
      var ps := EntryPs(p, i, t);
      forall b: Word | Canonical(b) && Covers(t.vppn, ps, b)
        ensures ExactHalf(p, roots, ram', b, t.lo0, t.lo1)
      {
        assert KnownPair(p, roots, ram, b, ps, t.lo0, t.lo1) && ExactHalf(p, roots, ram, b, t.lo0, t.lo1);
        UsedAfter(p, roots, leaf, ram, a, access, b);
        ReachesKin(Used(p, roots, ram, b), Used(p, roots, ram', b));
        assert PairNumber(a, ps) != PairNumber(b, ps);
        assert !SamePage(p, roots, ram, b, a);
      }
    }
  }

  /** Every address of the pair just handed over finds D of the tables the walk leaves. */
  lemma HandedExact(p: Params, roots: Roots, leaf: nat -> bool, ram: Bytes, a: Word, access: Access, b: Word)
    requires Setup(p, roots, leaf, ram) && NoSharing(p, roots, ram) && Canonical(a) && Canonical(b)
    requires var ps := Walk(p.walk, Qwords(ram), roots, a).ps;
             CheckPs(p.prcfg2, ps) && CheckPs(p.prcfg2, p.stlbPs) && ps <= 39 && PairNumber(a, ps) == PairNumber(b, ps)
    ensures var f := VDRefill(p, Qwords(ram), roots, a, access);
            ExactHalf(p, roots, VDRam(p, ram, roots, a, access), b, f.lo0, f.lo1)
  {
    hide Walk, VDRefill, FlagV, FlagD, FlagP, FlagW, Kin, Visited, FlagHuge, WalkDirs, Canonical, SelectsOdd, VDRam, PairNumber, OddPage, CheckPs,
      Setup, Reaches;
    var mem, ram' := Qwords(ram), VDRam(p, ram, roots, a, access);
    var odd := OddPage(b, Walk(p.walk, mem, roots, b).ps);
    var huge := FlagHuge(WalkDirs(p.walk, mem, a, Root(roots, a), 4));
    PairWalk(p, roots, leaf, ram, a, b);
    UsedAfter(p, roots, leaf, ram, a, access, b);
    ReachesKin(Used(p, roots, ram, b), Used(p, roots, ram', b));
    HandedHalf(p, roots, mem, a, access, odd);
    if huge || odd == SelectsOdd(p, a) {
      UpdatedHalf(p, roots, leaf, ram, a, access, odd);
      RaisedTables(p, roots, leaf, ram, a, access);
      PairWalk(p, roots, leaf, ram', a, b);
    } else if Visited(p, mem, roots, b) == Visited(p, mem, roots, a) && Exposed(p, roots, ram, b) {
      assert SamePage(p, roots, ram, b, a);
      UsedIsVisited(p, roots, leaf, ram, b);
    }
  }

  /** The half that the walker updates has D of the tables it leaves. */
  lemma UpdatedHalf(p: Params, roots: Roots, leaf: nat -> bool, ram: Bytes, a: Word, access: Access, odd: bool)
    requires Setup(p, roots, leaf, ram) && Canonical(a)
    requires FlagHuge(WalkDirs(p.walk, Qwords(ram), a, Root(roots, a), 4)) || odd == SelectsOdd(p, a)
    ensures var r, r' := Walk(p.walk, Qwords(ram), roots, a), Walk(p.walk, Qwords(VDRam(p, ram, roots, a, access)), roots, a);
            r'.ps == r.ps && FlagD(WordOf(r', odd)) == (FlagD(WordOf(r, odd)) || (access.Store? && FlagW(WordOf(r, odd))))
  {
    hide Walk, Tidy, FlagV, FlagD, FlagP, FlagW, Kin, LoadQ, FlagHuge, WalkDirs, Canonical, SelectsOdd, SaneSizes, VDRam, PteAddress, HugeAddress;
    var mem, mem' := Qwords(ram), Qwords(VDRam(p, ram, roots, a, access));
    RaisedTables(p, roots, leaf, ram, a, access);
    WalkKin(p.walk, mem, mem', leaf, roots, a, odd);
    MaintainedWord(p, ram, leaf, roots, a, access, LeafAt(p.walk, mem, roots, a, odd));
  }

  lemma FilledExact(p: Params, roots: Roots, leaf: nat -> bool, ram: Bytes, a: Word, access: Access, asid: nat, rand: nat, old_: Entry)
    requires Setup(p, roots, leaf, ram) && NoSharing(p, roots, ram) && Canonical(a)
    requires var ps := VDRefill(p, Qwords(ram), roots, a, access).ps; CheckPs(p.prcfg2, ps) && CheckPs(p.prcfg2, p.stlbPs)
    ensures var f := VDRefill(p, Qwords(ram), roots, a, access);
            var i := Victim(p, EntryHi(a), f.ps, rand);
            ExactEntry(p, roots, VDRam(p, ram, roots, a, access), i, FillEntry(old_, i, asid, Vppn(EntryHi(a)), f))
  {
    hide Walk, VDRefill, Canonical, VDRam, FlagD, CheckPs, Victim, FlagG, Vppn, PairNumber, Shr, Setup, NoSharing, ExactHalf, FlagV, FlagP, Kin, FlagHuge,
      WalkDirs, SelectsOdd, FlagW;
    var f, ram' := VDRefill(p, Qwords(ram), roots, a, access), VDRam(p, ram, roots, a, access);
    var i := Victim(p, EntryHi(a), f.ps, rand);
    var t := FillEntry(old_, i, asid, Vppn(EntryHi(a)), f);
    SizeRange(p, roots, leaf, ram, f.ps);
    VictimPlace(p, EntryHi(a), f.ps, rand);
    TagKept(a);
    TagOfAddress(a, f.ps);
    HandedHalf(p, roots, Qwords(ram), a, access, false);
    forall b: Word | Canonical(b) && Covers(t.vppn, f.ps, b)
      ensures ExactHalf(p, roots, ram', b, t.lo0, t.lo1)
    {
      HandedExact(p, roots, leaf, ram, a, access, b);
    }
  }

  lemma WalkKeepsExact(p: Params, roots: Roots, leaf: nat -> bool, asid: nat, ram: Bytes, tlb: seq<Entry>, a: Word, access: Access, plv: nat, rand: nat)
    requires Setup(p, roots, leaf, ram) && NoSharing(p, roots, ram) && Canonical(a) && IsTable(tlb)
    requires KnownTable(p, roots, asid, ram, tlb) && ExactTable(p, roots, ram, tlb)
    ensures ExactTable(p, roots, VDRam(p, ram, roots, a, access), SecondPass(p, Qwords(ram), roots, tlb, asid, a, access, plv, rand).tlb)
  {
    hide Search, VDRefill, VDRam, Tidy, Canonical, SaneSizes, CheckPs, Covers, FlagG, MapPair, Setup, Sane, ExactEntry, Victim, FillEntry, Vppn,
      NoSharing, KnownPair;
    var dropped := InvalidatePageAsidOrG(p, tlb, asid, a);
    var f, ram' := VDRefill(p, Qwords(ram), roots, a, access), VDRam(p, ram, roots, a, access);
    var filled := TlbFill(p, dropped, asid, EntryHi(a), f, rand);
    var i := Victim(p, EntryHi(a), f.ps, rand);
    if CheckPs(p.prcfg2, f.ps) && CheckPs(p.prcfg2, p.stlbPs) {
      FilledExact(p, roots, leaf, ram, a, access, asid, rand, dropped[i]);
    }
    forall j: nat | j < |filled|
      ensures ExactEntry(p, roots, ram', j, filled[j])
    {
      assert KnownEntry(p, roots, asid, ram, j, tlb[j]) && ExactEntry(p, roots, ram, j, tlb[j]);
      ClearedExact(p, roots, ram', j, tlb[j]);
      if dropped[j] != Cleared(tlb[j]) { SurvivorStays(p, roots, leaf, asid, ram, a, access, j, tlb[j]); }
    }
  }

  lemma ClearedExact(p: Params, roots: Roots, ram: Bytes, i: nat, t: Entry)
    ensures ExactEntry(p, roots, ram, i, Cleared(t))
  {
  }

  lemma DropKeepsExact(p: Params, roots: Roots, ram: Bytes, tlb: seq<Entry>, tlb': seq<Entry>)
    requires ExactTable(p, roots, ram, tlb) && OnlyClears(tlb, tlb')
    ensures ExactTable(p, roots, ram, tlb')
  {
    hide ExactEntry;
    forall j: nat | j < |tlb'|
      ensures ExactEntry(p, roots, ram, j, tlb'[j])
    {
      assert ExactEntry(p, roots, ram, j, tlb[j]);
      ClearedExact(p, roots, ram, j, tlb[j]);
    }
  }

  // ---- Runs --------------------------------------------------------------------------------------------

  lemma TouchExact(p: Params, roots: Roots, leaf: nat -> bool, asid: nat, tlb: seq<Entry>, ram: Bytes, ram': Bytes,
                   a: Word, access: Access, plv: nat, rand: nat)
    requires Setup(p, roots, leaf, ram) && NoSharing(p, roots, ram) && Ahead(leaf, ram, ram') && Canonical(a) && IsTable(tlb)
    requires KnownTable(p, roots, asid, ram, tlb) && ExactTable(p, roots, ram, tlb)
    ensures var o := Touched(p, roots, asid, tlb, ram, a, access, plv, rand);
            && o.ret == WalkOnce(p, roots, ram', a, access, plv)
            && NoSharing(p, roots, o.ram) && ExactTable(p, roots, o.ram, o.tlb)
  {
    hide Setup, KnownTable, ExactTable, NoSharing, Ahead, Canonical, VDRam, VDRefill, SecondPass, FirstPass, MapPair, CheckPs, IsTable;
    assert WalkOnce(p, roots, ram', a, access, plv) == WalkOnce(p, roots, ram, a, access, plv) by { SameHandOver(p, roots, leaf, ram, ram', a, access); }
    var first := FirstPass(p, tlb, asid, a, access, plv);
    if first.Some? && first.value != NeedsSetD {
      HitExact(p, roots, leaf, asid, ram, tlb, a, access, plv);
    } else {
      assert Sane(p, tlb) by { TableSane(p, roots, asid, ram, tlb); }
      WalkOutcome(p, roots, leaf, asid, ram, tlb, a, access, plv, rand);
      WalkKeepsExact(p, roots, leaf, asid, ram, tlb, a, access, plv, rand);
      NoSharingKept(p, roots, leaf, ram, a, access);
    }
  }

  /** With no sharing, every access of every run gets exactly what walking, maintaining and checking every time gives. */
  lemma {:induction false} ExactTransparency(p: Params, roots: Roots, leaf: nat -> bool, asid: nat, tlb: seq<Entry>, ram: Bytes, ram': Bytes, steps: seq<VDStep>)
    requires Setup(p, roots, leaf, ram) && NoSharing(p, roots, ram) && Ahead(leaf, ram, ram') && Proper(steps) && IsTable(tlb)
    requires KnownTable(p, roots, asid, ram, tlb) && ExactTable(p, roots, ram, tlb)
    ensures TlbRun(p, roots, asid, tlb, ram, steps).0 == WalkerRun(p, roots, ram', steps).0
    decreases |steps|
  {
    hide Setup, KnownTable, ExactTable, NoSharing, Ahead, Canonical, Touched, WalkOnce, VDRam, TableAfter;
    if steps != [] {
      var rest := steps[1..];
      assert Proper(rest);
      assert if steps[0].Touch? then Canonical(steps[0].a) else Clears(steps[0].op);
      match steps[0]
      case Touch(a, access, plv, rand) =>
        var o := Touched(p, roots, asid, tlb, ram, a, access, plv, rand);
        TouchBoth(p, roots, leaf, asid, tlb, ram, ram', a, access, plv, rand);
        TouchExact(p, roots, leaf, asid, tlb, ram, ram', a, access, plv, rand);
        ExactTransparency(p, roots, leaf, asid, o.tlb, o.ram, VDRam(p, ram', roots, a, access), rest);
      case Drop(op) =>
        DropClears(p, tlb, op);
        DropKeepsTable(p, roots, asid, ram, tlb, TableAfter(p, tlb, op));
        DropKeepsExact(p, roots, ram, tlb, TableAfter(p, tlb, op));
        ExactTransparency(p, roots, leaf, asid, TableAfter(p, tlb, op), ram, ram', rest);
    }
  }

  /** From an empty TLB and one memory. */
  lemma ExactFromPowerOn(p: Params, roots: Roots, leaf: nat -> bool, asid: nat, tlb: seq<Entry>, ram: Bytes, steps: seq<VDStep>)
    requires Setup(p, roots, leaf, ram) && NoSharing(p, roots, ram) && Empty(tlb) && Proper(steps)
    ensures TlbRun(p, roots, asid, tlb, ram, steps).0 == WalkerRun(p, roots, ram, steps).0
  {
    hide Setup, Ahead, Proper, TlbRun, WalkerRun, NoSharing;
    AheadSelf(leaf, ram);
    assert KnownTable(p, roots, asid, ram, tlb) by { EmptyKnown(p, roots, asid, ram, tlb); }
    assert ExactTable(p, roots, ram, tlb);
    ExactTransparency(p, roots, leaf, asid, tlb, ram, ram, steps);
  }

  // ---- Sharing shows ---------------------------------------------------------------------------------

  /** An access that passes the checks on w, at the privilege level of w. */
  function Quiet(w: Word): Access { if FlagNR(w) then Fetch else Load }

  lemma QuietMatch(w: Word, y: Word, phys: nat)
    requires Kin(w, y) && FlagV(y) && Reaches(w)
    ensures Decide(y, Quiet(w), Plv(w), true, phys) == Match(phys, FlagD(y), !FlagNX(y))
  {
    KinFields(w, y);
    hide FlagV, FlagD, FlagP, FlagW, FlagNX, FlagNR, FlagRplv, Plv, Kin;
  }

  /** Entry i holds t for a, and no other entry matches a. */
  ghost predicate Holds(p: Params, asid: nat, tlb: seq<Entry>, i: nat, a: Word, ps: nat, t: Word) {
    && IsTable(tlb) && Looked(p, a, i) && Hits(p, i, tlb[i], asid, a) && EntryPs(p, i, tlb[i]) == ps >= 12
    && t == (if OddPage(a, ps) then tlb[i].lo1 else tlb[i].lo0)
    && forall j: nat :: j < TLB_MAX && j != i ==> !Hits(p, j, tlb[j], asid, a)
  }

  ghost predicate SoleValid(tlb: seq<Entry>, i: nat) { forall j: nat :: j < |tlb| && j != i ==> !tlb[j].e }

  /** The held word decides, as clean as it is. */
  lemma HeldResult(p: Params, roots: Roots, asid: nat, tlb: seq<Entry>, ram: Bytes, a: Word, i: nat, ps: nat, t: Word, w: Word, rand: nat)
    requires Holds(p, asid, tlb, i, a, ps, t) && Kin(w, t) && FlagV(t) && !FlagD(t) && Reaches(w)
    ensures var ret := Touched(p, roots, asid, tlb, ram, a, Quiet(w), Plv(w), rand).ret; ret.Match? && !ret.write
  {
    hide Search, Hits, SetIndex, SecondPass, VDRam, FlagV, FlagD, Kin, Reaches, Quiet, Plv, Decide, OddPage, Frame, Low, BitOr, FlagNX;
    SearchResult(p, tlb, asid, a);
    assert Search(p, tlb, asid, a) == At(i);
    QuietMatch(w, t, BitOr(Frame(t, ps), Low(a, ps)));
  }

  /** After a store through b, a walk for a finds D set. */
  lemma StoreShows(p: Params, roots: Roots, leaf: nat -> bool, ram: Bytes, a: Word, b: Word, w: Word)
    requires Setup(p, roots, leaf, ram) && Canonical(a) && Canonical(b) && Exposed(p, roots, ram, a) && Kin(w, Used(p, roots, ram, a))
    requires Visited(p, Qwords(ram), roots, a) == Visited(p, Qwords(ram), roots, b)
    ensures var ret := WalkOnce(p, roots, VDRam(p, ram, roots, b, Store), a, Quiet(w), Plv(w)); ret.Match? && ret.write
  {
    hide Walk, VDRefill, FlagV, FlagD, FlagP, FlagW, Kin, Visited, FlagHuge, WalkDirs, Canonical, SelectsOdd, VDRam, OddPage, CheckPs, Setup, Reaches,
      Quiet, Plv, Decide, Frame, Low, BitOr, FlagNX;
    var ram' := VDRam(p, ram, roots, b, Store);
    var r', f := Walk(p.walk, Qwords(ram'), roots, a), VDRefill(p, Qwords(ram'), roots, a, Quiet(w));
    UsedAfter(p, roots, leaf, ram, b, Store, a);
    var odd := OddPage(a, r'.ps);
    HandedHalf(p, roots, Qwords(ram'), a, Quiet(w), odd);
    SizeRange(p, roots, leaf, ram, r'.ps);
    var x', y := WordOf(r', odd), WordOf(f, odd);
    KinTrans(w, Used(p, roots, ram, a), x');
    KinTrans(w, x', y);
    ReachesKin(w, x');
    ReachesKin(w, Used(p, roots, ram, a));
    assert FlagP(x') by { ReachesPresent(x'); }
    QuietMatch(w, y, BitOr(Frame(y, r'.ps), Low(a, r'.ps)));
  }

  lemma ReachesPresent(w: Word)
    requires Reaches(w)
    ensures FlagP(w)
  {
  }

  /** An access to x on an empty TLB leaves one entry, which serves every address of the pair. */
  lemma OneFill(p: Params, roots: Roots, leaf: nat -> bool, asid: nat, tlb: seq<Entry>, ram: Bytes, x: Word, access: Access, plv: nat, a: Word)
    returns (i: nat)
    requires Setup(p, roots, leaf, ram) && Empty(tlb)
    requires var ps := Walk(p.walk, Qwords(ram), roots, x).ps;
             CheckPs(p.prcfg2, ps) && CheckPs(p.prcfg2, p.stlbPs) && PairNumber(a, ps) == PairNumber(x, ps)
    ensures var o, f := Touched(p, roots, asid, tlb, ram, x, access, plv, 0), VDRefill(p, Qwords(ram), roots, x, access);
            && o.ram == VDRam(p, ram, roots, x, access) && SoleValid(o.tlb, i) && (i < 256 || i == STLB)
            && Holds(p, asid, o.tlb, i, a, f.ps, WordOf(f, OddPage(a, f.ps)))
  {
    hide VDRam, VDRefill, Search, CheckPs, Shr, Low, Pow2, FlagG, MapPair, Walk, Setup, Kin, FlagV, FlagD, FlagP, FlagW, FlagHuge, WalkDirs, SelectsOdd,
      OddPage;
    var f := VDRefill(p, Qwords(ram), roots, x, access);
    HandedHalf(p, roots, Qwords(ram), x, access, false);
    SizeRange(p, roots, leaf, ram, f.ps);
    SearchResult(p, tlb, asid, x);
    i := Victim(p, EntryHi(x), f.ps, 0);
    ShrLow(Shr(EntryHi(x) - EntryHi(x) % 0x2000, p.stlbPs + 1), 8);
    assert Pow2(8) == 256 by { EightBits(); }
    TagKept(x);
    TagOfAddress(x, f.ps);
    VictimPlace(p, EntryHi(x), f.ps, 0);
    var dropped := InvalidatePageAsidOrG(p, tlb, asid, x);
    FreshHits(p, dropped[i], x, asid, f, 0);
  }

  lemma EightBits()
    ensures Pow2(8) == 256
  {
  }

  /** A store through another pair leaves that entry alone, and fills in none that matches a. */
  lemma StoreElsewhere(p: Params, roots: Roots, leaf: nat -> bool, asid: nat, tlb: seq<Entry>, ram: Bytes, a: Word, b: Word, i: nat, ps: nat, t: Word)
    requires Setup(p, roots, leaf, ram) && Canonical(a) && Canonical(b)
    requires Holds(p, asid, tlb, i, a, ps, t) && SoleValid(tlb, i) && (i < 256 || i == STLB)
    requires ps == Walk(p.walk, Qwords(ram), roots, a).ps && PairNumber(a, ps) != PairNumber(b, ps)
    ensures var o := Touched(p, roots, asid, tlb, ram, b, Store, 0, 1);
            o.ram == VDRam(p, ram, roots, b, Store) && Holds(p, asid, o.tlb, i, a, ps, t)
  {
    hide VDRam, VDRefill, Search, CheckPs, Shr, Low, Pow2, FlagG, MapPair, Walk, Setup, Kin, FlagV, FlagD, FlagP, FlagW, FlagHuge, WalkDirs, SelectsOdd,
      OddPage, PairNumber, Canonical, SetIndex;
    var f := VDRefill(p, Qwords(ram), roots, b, Store);
    HandedHalf(p, roots, Qwords(ram), b, Store, false);
    SearchResult(p, tlb, asid, b);
    assert !Covers(tlb[i].vppn, ps, b);
    TagKept(b);
    var dropped := InvalidatePageAsidOrG(p, tlb, asid, b);
    assert dropped[i] == tlb[i];
    if CheckPs(p.prcfg2, f.ps) && CheckPs(p.prcfg2, p.stlbPs) {
      SizeRange(p, roots, leaf, ram, f.ps);
      TagOfAddress(b, f.ps);
      VictimPlace(p, EntryHi(b), f.ps, 1);
      var k := Victim(p, EntryHi(b), f.ps, 1);
      assert k != i;
      if PairNumber(b, f.ps) == PairNumber(a, f.ps) { PairWalk(p, roots, leaf, ram, b, a); }
    }
  }

  /** Two pages that share an exposed leaf word give a run that tells the two machines apart. */
  lemma SharingShows(p: Params, roots: Roots, leaf: nat -> bool, asid: nat, tlb: seq<Entry>, ram: Bytes, a: Word, b: Word)
    returns (steps: seq<VDStep>)
    requires Setup(p, roots, leaf, ram) && Empty(tlb) && Canonical(a) && Canonical(b)
    requires Exposed(p, roots, ram, a) && Visited(p, Qwords(ram), roots, a) == Visited(p, Qwords(ram), roots, b) && !SamePage(p, roots, ram, a, b)
    ensures Proper(steps) && TlbRun(p, roots, asid, tlb, ram, steps).0 != WalkerRun(p, roots, ram, steps).0
  {
    hide Setup, Canonical, Exposed, Visited, PairNumber, SamePage, TlbRun, WalkerRun, Walk, Used, Quiet, Plv;
    if PairNumber(a, Walk(p.walk, Qwords(ram), roots, a).ps) == PairNumber(b, Walk(p.walk, Qwords(ram), roots, a).ps) {
      steps := HalvesShow(p, roots, leaf, asid, tlb, ram, a, b);
    } else {
      steps := LookStoreLook(a, b, Used(p, roots, ram, a));
      PairsShow(p, roots, leaf, asid, tlb, ram, a, b);
    }
  }

  function LookStoreLook(a: Word, b: Word, w: Word): seq<VDStep> {
    [Touch(a, Quiet(w), Plv(w), 0), Touch(b, Store, 0, 1), Touch(a, Quiet(w), Plv(w), 0)]
  }

  /** Sharing between pairs: the second look through a misses the store through b. */
  lemma PairsShow(p: Params, roots: Roots, leaf: nat -> bool, asid: nat, tlb: seq<Entry>, ram: Bytes, a: Word, b: Word)
    requires Setup(p, roots, leaf, ram) && Empty(tlb) && Canonical(a) && Canonical(b)
    requires Exposed(p, roots, ram, a) && Visited(p, Qwords(ram), roots, a) == Visited(p, Qwords(ram), roots, b)
    requires var ps := Walk(p.walk, Qwords(ram), roots, a).ps; PairNumber(a, ps) != PairNumber(b, ps)
    ensures var steps := LookStoreLook(a, b, Used(p, roots, ram, a));
            var x, y := TlbRun(p, roots, asid, tlb, ram, steps).0, WalkerRun(p, roots, ram, steps).0;
            |x| == |y| == 3 && x[2].Match? && y[2].Match? && !x[2].write && y[2].write
  {
    hide Setup, Canonical, Visited, PairNumber, Touched, WalkOnce, VDRam, TlbRun, WalkerRun, Walk, VDRefill, Kin, FlagV, FlagD, FlagP, FlagW, FlagHuge,
      WalkDirs, SelectsOdd, OddPage, Reaches, CheckPs, Quiet, Plv, Holds, SoleValid, Used;
    var w := Used(p, roots, ram, a);
    var look, store := Touch(a, Quiet(w), Plv(w), 0), Touch(b, Store, 0, 1);
    var steps := LookStoreLook(a, b, w);
    assert steps[1..] == [store, look] && steps[1..][1..] == [look];
    var i := OneFill(p, roots, leaf, asid, tlb, ram, a, Quiet(w), Plv(w), a);
    var o, f := Touched(p, roots, asid, tlb, ram, a, Quiet(w), Plv(w), 0), VDRefill(p, Qwords(ram), roots, a, Quiet(w));
    var t := WordOf(f, OddPage(a, f.ps));
    CleanHalf(p, roots, ram, a, w);
    RaisedTables(p, roots, leaf, ram, a, Quiet(w));
    StillExposed(p, roots, leaf, ram, a, b, w);
    StoreElsewhere(p, roots, leaf, asid, o.tlb, o.ram, a, b, i, f.ps, t);
    var s := Touched(p, roots, asid, o.tlb, o.ram, b, Store, 0, 1);
    HeldResult(p, roots, asid, s.tlb, s.ram, a, i, f.ps, t, w, 0);
    StoreShows(p, roots, leaf, o.ram, a, b, w);
    RunStep(p, roots, asid, tlb, ram, steps);
    RunStep(p, roots, asid, o.tlb, o.ram, [store, look]);
    RunStep(p, roots, asid, s.tlb, s.ram, [look]);
    var last := Touched(p, roots, asid, s.tlb, s.ram, a, Quiet(w), Plv(w), 0);
    NoMore(p, roots, asid, last.tlb, last.ram);
  }

  /** The word handed over for a look is as clean as the table's. */
  lemma CleanHalf(p: Params, roots: Roots, ram: Bytes, a: Word, w: Word)
    requires w == Used(p, roots, ram, a) && Reaches(w) && !FlagD(w)
    ensures var r, f := Walk(p.walk, Qwords(ram), roots, a), VDRefill(p, Qwords(ram), roots, a, Quiet(w));
            var t := WordOf(f, OddPage(a, f.ps));
            f.ps == r.ps && Kin(w, t) && FlagV(t) && !FlagD(t)
  {
    hide Walk, VDRefill, Kin, FlagV, FlagD, FlagW, FlagHuge, WalkDirs, SelectsOdd, OddPage, FlagNR, FlagNX;
    HandedHalf(p, roots, Qwords(ram), a, Quiet(w), OddPage(a, Walk(p.walk, Qwords(ram), roots, a).ps));
  }

  /** A look through a changes nothing of this. */
  lemma StillExposed(p: Params, roots: Roots, leaf: nat -> bool, ram: Bytes, a: Word, b: Word, w: Word)
    requires Setup(p, roots, leaf, ram) && Canonical(a) && Canonical(b) && w == Used(p, roots, ram, a)
    requires Exposed(p, roots, ram, a) && Visited(p, Qwords(ram), roots, a) == Visited(p, Qwords(ram), roots, b)
    ensures var ram' := VDRam(p, ram, roots, a, Quiet(w));
            && Exposed(p, roots, ram', a) && Kin(w, Used(p, roots, ram', a))
            && Visited(p, Qwords(ram'), roots, a) == Visited(p, Qwords(ram'), roots, b)
            && Walk(p.walk, Qwords(ram'), roots, a).ps == Walk(p.walk, Qwords(ram), roots, a).ps
  {
    hide Setup, Canonical, Visited, VDRam, Walk, Kin, FlagD, FlagW, FlagHuge, WalkDirs, Reaches, CheckPs, Used;
    UsedAfter(p, roots, leaf, ram, a, Quiet(w), a);
    UsedAfter(p, roots, leaf, ram, a, Quiet(w), b);
    ReachesKin(w, Used(p, roots, VDRam(p, ram, roots, a, Quiet(w)), a));
  }

  /** Sharing between the halves of a pair: store through b, look through a. */
  lemma HalvesShow(p: Params, roots: Roots, leaf: nat -> bool, asid: nat, tlb: seq<Entry>, ram: Bytes, a: Word, b: Word)
    returns (steps: seq<VDStep>)
    requires Setup(p, roots, leaf, ram) && Empty(tlb) && Canonical(a) && Canonical(b)
    requires Exposed(p, roots, ram, a) && Visited(p, Qwords(ram), roots, a) == Visited(p, Qwords(ram), roots, b) && !SamePage(p, roots, ram, a, b)
    requires var ps := Walk(p.walk, Qwords(ram), roots, a).ps; PairNumber(a, ps) == PairNumber(b, ps)
    ensures Proper(steps) && TlbRun(p, roots, asid, tlb, ram, steps).0 != WalkerRun(p, roots, ram, steps).0
  {
    hide Setup, Canonical, Visited, PairNumber, Touched, WalkOnce, VDRam, TlbRun, WalkerRun, Walk, VDRefill, Kin, FlagV, FlagD, FlagP, FlagW, FlagHuge,
      WalkDirs, SelectsOdd, OddPage, Reaches, CheckPs, Quiet, Plv, Holds, SoleValid;
    var w := Used(p, roots, ram, a);
    var look, store := Touch(a, Quiet(w), Plv(w), 0), Touch(b, Store, 0, 0);
    steps := [store, look];
    assert steps[1..] == [look];
    var ps := Walk(p.walk, Qwords(ram), roots, a).ps;
    SizeRange(p, roots, leaf, ram, ps);
    PairWalk(p, roots, leaf, ram, a, b);
    UsedIsVisited(p, roots, leaf, ram, a);
    var i := OneFill(p, roots, leaf, asid, tlb, ram, b, Store, 0, a);
    var o, f := Touched(p, roots, asid, tlb, ram, b, Store, 0, 0), VDRefill(p, Qwords(ram), roots, b, Store);
    HandedHalf(p, roots, Qwords(ram), b, Store, OddPage(a, ps));
    assert FlagP(w) by { ReachesPresent(w); }
    HeldResult(p, roots, asid, o.tlb, o.ram, a, i, ps, WordOf(f, OddPage(a, ps)), w, 0);
    KinSame(w);
    StoreShows(p, roots, leaf, ram, a, b, w);
    RunStep(p, roots, asid, tlb, ram, steps);
    RunStep(p, roots, asid, o.tlb, o.ram, [look]);
    assert TlbRun(p, roots, asid, tlb, ram, steps).0[1] != WalkerRun(p, roots, ram, steps).0[1];
  }

  /** Both machines, one access on. */
  lemma RunStep(p: Params, roots: Roots, asid: nat, tlb: seq<Entry>, ram: Bytes, steps: seq<VDStep>)
    requires IsTable(tlb) && steps != [] && steps[0].Touch?
    ensures var t, rest := steps[0], steps[1..];
            var o := Touched(p, roots, asid, tlb, ram, t.a, t.access, t.plv, t.rand);
            && TlbRun(p, roots, asid, tlb, ram, steps).0 == [o.ret] + TlbRun(p, roots, asid, o.tlb, o.ram, rest).0
            && WalkerRun(p, roots, ram, steps).0
               == [WalkOnce(p, roots, ram, t.a, t.access, t.plv)] + WalkerRun(p, roots, VDRam(p, ram, roots, t.a, t.access), rest).0
  {
    hide Touched, WalkOnce, VDRam;
  }

  lemma NoMore(p: Params, roots: Roots, asid: nat, tlb: seq<Entry>, ram: Bytes)
    requires IsTable(tlb)
    ensures forall ram': Bytes :: TlbRun(p, roots, asid, tlb, ram, []).0 == WalkerRun(p, roots, ram', []).0 == []
  {
  }

  ghost predicate ExactRuns(p: Params, roots: Roots, asid: nat, tlb: seq<Entry>, ram: Bytes)
    requires IsTable(tlb)
  {
    forall steps: seq<VDStep> :: Proper(steps) ==> TlbRun(p, roots, asid, tlb, ram, steps).0 == WalkerRun(p, roots, ram, steps).0
  }

  /** From an empty TLB the two machines agree on every result of every run exactly when no exposed leaf word serves two pages. */
  lemma ExactIff(p: Params, roots: Roots, leaf: nat -> bool, asid: nat, tlb: seq<Entry>, ram: Bytes)
    requires Setup(p, roots, leaf, ram) && Empty(tlb)
    ensures ExactRuns(p, roots, asid, tlb, ram) <==> NoSharing(p, roots, ram)
  {
    hide Setup, Proper, TlbRun, WalkerRun, Exposed, SamePage, Visited, Canonical;
    if NoSharing(p, roots, ram) {
      forall steps: seq<VDStep> | Proper(steps)
        ensures TlbRun(p, roots, asid, tlb, ram, steps).0 == WalkerRun(p, roots, ram, steps).0
      {
        ExactFromPowerOn(p, roots, leaf, asid, tlb, ram, steps);
      }
    } else {
      var a: Word, b: Word :|
        Canonical(a) && Canonical(b) && Exposed(p, roots, ram, a) && Visited(p, Qwords(ram), roots, a) == Visited(p, Qwords(ram), roots, b)
        && !SamePage(p, roots, ram, a, b);
      var steps := SharingShows(p, roots, leaf, asid, tlb, ram, a, b);
    }
  }
}
