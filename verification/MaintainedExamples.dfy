/**
 Inputs on which V/D maintenance shows: a second pass that asks for D again, a dirty bit that lags
 behind, and tables in which it cannot.
 */
module MaintainedExamples {
  import opened Words
  import opened PageWalk
  import opened Tlb
  import opened TlbRuns
  import opened LittleEndian
  import opened SetVD
  import opened Mmu
  import opened Reachable
  import opened MaintainedWalk
  import opened MaintainedRuns
  import opened MaintainedExact
  import opened Aliasing

  const ROOTS: Roots := Roots(0x1000, 0x2000)

  /** Present, valid, writable and clean: frame 5, P, V, W. */
  const CLEAN: Word := 0x5181

  // ---- The second pass asks again --------------------------------------------------------------

  /** 4 KiB pages under an STLB of 16 KiB pages. */
  const MISMATCHED: Params := Params(ONE_LEVEL, 0x3fff_f000, 14)
  const SECOND_PAGE: Memory := (q: nat) => if q == 0x1008 then CLEAN else 0

  /** A store to the odd page of a pair: the walker maintains the even half, which is the one that bit 14 picks. */
  lemma ParityMismatch(tlb: seq<Entry>)
    requires Empty(tlb)
    ensures SecondPass(MISMATCHED, SECOND_PAGE, ROOTS, tlb, 0, 0x1000, Store, 0, 0).ret == NeedsSetD
  {
    hide SecondPass, Sane, CheckPs, Shr, Low, Pow2, WalkDirs, LdPte, Walk, BitOr;
    SizesSupported();
    EmptySane(MISMATCHED, tlb);
    PageOne();
    SecondPageWalk();
    SecondPassSettles(MISMATCHED, SECOND_PAGE, ROOTS, tlb, 0, 0x1000, Store, 0, 0);
  }

  lemma SecondPageWalk()
    ensures var base := WalkDirs(ONE_LEVEL, SECOND_PAGE, 0x1000, 0x1000, 4);
            !FlagHuge(base) && RefillFrom(ONE_LEVEL, SECOND_PAGE, 0x1000, base) == Refill(0, CLEAN, 12)
  {
    hide Shr, Low, Pow2, BitOr, LdPte, LdDir;
    PageOne();
    OneTableWalk(SECOND_PAGE, ROOTS, 0x1000);
    assert WalkDirs(ONE_LEVEL, SECOND_PAGE, 0x1000, 0x1000, 2) == 0x1000;
  }

  lemma PageOne()
    ensures Shr(0x1000, 12) == 1 && Shr(0x1000, 14) == 0
  {
    ShrDiv(0x1000, 12);
    ShrDiv(0x1000, 14);
    Pow2Values();
    assert Pow2(14) == 0x4000;
  }

  lemma SizesSupported()
    ensures CheckPs(0x3fff_f000, 12) && CheckPs(0x3fff_f000, 14)
  {
    SupportsFourKiB();
    ShrDiv(0x3fff_f000, 14);
    assert Pow2(14) == 0x4000 by { Pow2Values(); }
  }

  lemma EmptySane(p: Params, tlb: seq<Entry>)
    requires Empty(tlb)
    ensures Sane(p, tlb)
  {
  }

  // ---- The dirty bit lags ----------------------------------------------------------------------

  /** One table of 4 KiB pages, met again every 2 MiB. */
  const MATCHED: Params := Params(ONE_LEVEL, 0x3fff_f000, 12)
  const PAGE: Word := 0
  const AGAIN: Word := 0x20_0000
  const ONE_CLEAN: Bytes := (q: nat) => if q == 0x1000 then 0x81 else if q == 0x1001 then 0x51 else 0

  /** Load through one page, store through another with the same leaf word, load through the first: the last load
      finds the word the first one left in the TLB. */
  lemma DirtyBitLags(tlb: seq<Entry>)
    requires Empty(tlb)
    ensures Setup(MATCHED, ROOTS, (q: nat) => true, ONE_CLEAN) && !NoSharing(MATCHED, ROOTS, ONE_CLEAN)
    ensures var steps := [Touch(PAGE, Load, 0, 0), Touch(AGAIN, Store, 0, 1), Touch(PAGE, Load, 0, 0)];
            var x, y := TlbRun(MATCHED, ROOTS, 0, tlb, ONE_CLEAN, steps).0, WalkerRun(MATCHED, ROOTS, ONE_CLEAN, steps).0;
            |x| == |y| == 3 && x[2].Match? && y[2].Match? && !x[2].write && y[2].write
  {
    hide Setup, Visited, PairNumber, CheckPs, Shr, Walk, TlbRun, WalkerRun, OddPage, LoadQ;
    RootsAligned();
    SetupCanHold(12, 9, ROOTS, ONE_CLEAN);
    PageAt(PAGE);
    PageAt(AGAIN);
    FirstVisited(Qwords(ONE_CLEAN), PAGE);
    FirstVisited(Qwords(ONE_CLEAN), AGAIN);
    OneTableWalk(Qwords(ONE_CLEAN), ROOTS, PAGE);
    CleanWord();
    SupportsFourKiB();
    assert Used(MATCHED, ROOTS, ONE_CLEAN, PAGE) == CLEAN;
    PairsShow(MATCHED, ROOTS, (q: nat) => true, 0, tlb, ONE_CLEAN, PAGE, AGAIN);
    assert !SamePage(MATCHED, ROOTS, ONE_CLEAN, PAGE, AGAIN);
  }

  lemma RootsAligned()
    ensures AlignedRoot(0x1000, 9) && AlignedRoot(0x2000, 9)
  {
    Pow2Values();
  }

  lemma CleanWord()
    ensures LoadQ(ONE_CLEAN, 0x1000) == CLEAN
  {
    var b := Eight(ONE_CLEAN, 0x1000);
    assert b == [0x81, 0x51] + [0, 0, 0, 0, 0, 0];
    assert b[1..][1..] == [0, 0, 0, 0, 0, 0];
    ZeroValue(b[1..][1..]);
  }

  /** Both pages come first in the table, each as the even half of its pair. */
  lemma PageAt(a: Word)
    requires a == PAGE || a == AGAIN
    ensures Shr(a, 12) % 512 == 0 && !OddPage(a, 12) && !FlagHuge(Root(ROOTS, a)) && Root(ROOTS, a) == 0x1000
    ensures PairNumber(a, 12) == if a == PAGE then 0 else 256
  {
    hide Shr, Pow2;
    ShrDiv(a, 12);
    ShrDiv(a, 13);
    Pow2Values();
  }

  lemma FirstVisited(mem: Memory, a: Word)
    requires a == PAGE || a == AGAIN
    ensures Visited(MATCHED, mem, ROOTS, a) == 0x1000
  {
    hide Shr, Low, Pow2, BitOr, LdDir;
    PageAt(a);
    assert Index(a, 12, 9) == 0 by {
      LowMod(Shr(a, 12), 9);
      SmallPowers();
    }
    SmallPowers();
    NoDirectories(12, 9, mem, a, 0x1000);
    assert PteAddress(ONE_LEVEL, a, 0x1000, false) == 0x1000 by { OrDisjoint(0x1000, 0, 4); }
  }

  // ---- Tables without sharing --------------------------------------------------------------------

  /** 128 KiB pages in tables of 2^30 entries, which span each half of the address space. */
  const SPANNING: WalkConfig := OneLevel(17, 30)
  const FAR_ROOTS: Roots := Roots(0x100_0000_0000, 0x200_0000_0000)

  /** Whatever such tables hold, no two page pairs share a leaf word. */
  lemma ExactCanHold(ram: Bytes)
    ensures Setup(Params(SPANNING, 0x3fff_f000, 17), FAR_ROOTS, (q: nat) => true, ram)
    ensures NoSharing(Params(SPANNING, 0x3fff_f000, 17), FAR_ROOTS, ram)
  {
    hide Canonical, Walk, PairNumber, WalkDirs, Setup, LoadQ, FlagHuge, Pow2, Exposed, SelectsOdd, Visited;
    FarRootsAligned();
    SetupCanHold(17, 30, FAR_ROOTS, ram);
    var p := Params(SPANNING, 0x3fff_f000, 17);
    forall a: Word, b: Word
      | Canonical(a) && Canonical(b) && Visited(p, Qwords(ram), FAR_ROOTS, a) == Visited(p, Qwords(ram), FAR_ROOTS, b)
      ensures SamePage(p, FAR_ROOTS, ram, a, b)
    {
      SpanningLeaf(Qwords(ram), a);
      SpanningLeaf(Qwords(ram), b);
    }
  }

  lemma FarRootsAligned()
    ensures AlignedRoot(0x100_0000_0000, 30) && AlignedRoot(0x200_0000_0000, 30)
  {
    Pow2Add(30, 3);
    ThirtyBits();
  }

  lemma ThirtyBits()
    ensures Pow2(30) == 0x4000_0000 && Pow2(3) == 8 && Pow2(17) == 0x2_0000 && Pow2(18) == 0x4_0000
  {
    assert Pow2(10) == 0x400;
    assert Pow2(20) == 0x10_0000;
  }

  /** The leaf word's address tells the half of the address space, the pair and the half of the pair. */
  lemma SpanningLeaf(mem: Memory, a: Word)
    requires Canonical(a)
    ensures var p := Params(SPANNING, 0x3fff_f000, 17);
            var n := PairNumber(a, 17) - if a < TWO63 then 0 else 0x2000_0000;
            && Walk(SPANNING, mem, FAR_ROOTS, a).ps == 17 && 0 <= n < 0x2000_0000
            && Visited(p, mem, FAR_ROOTS, a) == Root(FAR_ROOTS, a) + (2 * n + if SelectsOdd(p, a) then 1 else 0) * 8
  {
    hide Pow2, Shr, Low, LdPte, PteAddress, FlagHuge, LdDir, HugeAddress, Canonical, SelectsOdd;
    var root := Root(FAR_ROOTS, a);
    FarRootsAligned();
    NoDirectories(17, 30, mem, a, root);
    FlatAddress(17, 30, a, root, SelectsOdd(Params(SPANNING, 0x3fff_f000, 17), a));
    SpanningIndex(a);
    ThirtyBits();
  }

  lemma SpanningIndex(a: Word)
    requires Canonical(a)
    ensures var n := PairNumber(a, 17) - if a < TWO63 then 0 else 0x2000_0000;
            0 <= n < 0x2000_0000 && Index(a, 17, 30) / 2 == n
  {
    hide Pow2, Shr, Low;
    ThirtyBits();
    LowMod(Shr(a, 17), 30);
    ShrDiv(a, 17);
    ShrDiv(a % TWO48, 18);
    DivDiv(a, 0x2_0000, 2);
  }
}
