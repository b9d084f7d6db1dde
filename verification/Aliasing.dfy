/**
 Why transparency asks for canonical addresses.  The extension check of
 get_physical_address looks at bits 63..48 only, while the TLB compares bits 47..0:
 an address with bit 47 set and its sign-extended twin share one TLB entry but are
 walked from different roots.
 */
module Aliasing {
  import opened Words
  import opened PageWalk
  import opened Tlb
  import opened TlbRuns
  import opened Sharing

  /** Addresses that get_physical_address passes on to the TLB. */
  predicate Accepted(a: Word) { a < TWO48 || a >= TWO64 - TWO48 }

  // ---- A concrete pair of twins --------------------------------------------------------

  /** No directories: 2^base-byte pages found in one table of 2^width entries. */
  function OneLevel(base: nat, width: nat): WalkConfig { WalkConfig(base, width, 0, 0, 0, 0, 0, 0, 0, 0, 0) }

  /** 4 KiB pages; the low root maps page 0 to frame 5, the high root maps nothing. */
  const ONE_LEVEL: WalkConfig := OneLevel(12, 9)
  const LOW_ONLY: Memory := (p: nat) => if p == 0x1000 then 0x5001 else 0
  const WORLD: World := World(Params(ONE_LEVEL, 0x3fff_f000, 12), (s: nat) => Roots(0x1000, 0x2000))
  const TWIN_LOW: Word := 0x8000_0000_0000
  const TWIN_HIGH: Word := 0xffff_8000_0000_0000

  /** Both twins are accepted, and the walk tells them apart. */
  lemma TwinsDiffer()
    ensures Accepted(TWIN_LOW) && Accepted(TWIN_HIGH) && TWIN_LOW % TWO48 == TWIN_HIGH % TWO48
    ensures !Canonical(TWIN_LOW) && Canonical(TWIN_HIGH)
    ensures WalkTranslate(WORLD, LOW_ONLY, 0, TWIN_LOW, Load, 0) == Match(0x5000, false, true)
    ensures WalkTranslate(WORLD, LOW_ONLY, 0, TWIN_HIGH, Load, 0) == Invalid
  {
    hide Shr, Low, Pow2, BitOr, MapPair, Walk, CheckPs;
    assert CheckPs(0x3fff_f000, 12) by { SupportsFourKiB(); }
    PageZero(TWIN_LOW);
    PageZero(TWIN_HIGH);
    OneTableWalk(LOW_ONLY, Roots(0x1000, 0x2000), TWIN_LOW);
    OneTableWalk(LOW_ONLY, Roots(0x1000, 0x2000), TWIN_HIGH);
  }

  lemma SupportsFourKiB()
    ensures CheckPs(0x3fff_f000, 12)
  {
    ShrDiv(0x3fff_f000, 12);
    Pow2Values();
  }

  /** The first page of a table: frame 5 if the entry is 0x5001, no page if it is 0. */
  lemma PageZero(a: Word)
    requires a == TWIN_LOW || a == TWIN_HIGH
    ensures Shr(a, 12) % 512 == 0
    ensures forall odd: Word :: MapPair(0x5001, odd, 12, a, Load, 0, false) == Match(0x5000, false, true)
    ensures forall odd: Word :: MapPair(0, odd, 12, a, Load, 0, false) == Invalid
  {
    hide Shr, Pow2, Low, BitOr, Frame, Ppn;
    assert Shr(a, 12) % 512 == 0 && Low(a, 12) == 0 by {
      LowMod(a, 12);
      Pow2Values();
    }
    assert BitOr(Frame(0x5001, 12), 0) == 0x5000 by { FrameFive(); }
  }

  lemma FrameFive()
    ensures BitOr(Frame(0x5001, 12), 0) == 0x5000
  {
    assert Ppn(0x5001) == 5;
  }

  /** With a single table of 512 entries, page 0 is its first entry and page 1 its second. */
  lemma OneTableWalk(mem: Memory, roots: Roots, a: Word)
    requires Shr(a, 12) % 512 <= 1
    requires Root(roots, a) % 16 == 0 && Root(roots, a) < 0x10_0000 && !FlagHuge(Root(roots, a))
    ensures Walk(ONE_LEVEL, mem, roots, a) == Refill(mem(Root(roots, a)), mem(Root(roots, a) + 8), 12)
  {
    hide Shr, Low, Pow2, BitOr, LdDir, FlagHuge;
    var root := Root(roots, a);
    assert Index(a, 12, 9) <= 1 by {
      LowMod(Shr(a, 12), 9);
      SmallPowers();
    }
    SmallPowers();
    assert PteAddress(ONE_LEVEL, a, root, false) == root by { OrDisjoint(root, 0, 4); }
    assert PteAddress(ONE_LEVEL, a, root, true) == root + 8 by { OrDisjoint(root, 8, 4); }
    NoDirectories(12, 9, mem, a, root);
  }

  lemma SmallPowers()
    ensures Pow2(1) == 2 && Pow2(3) == 8 && Pow2(4) == 16 && Pow2(9) == 512
  {
  }

  /** These tables meet every other assumption. */
  lemma WorldIsGood()
    ensures GoodWorld(WORLD) && Contiguous(ONE_LEVEL) && GoodTables(WORLD, LOW_ONLY)
  {
    hide Walk, FlagG, CheckPs, Canonical;
    SupportedSizes();
    assert Ordered(ONE_LEVEL) && Contiguous(ONE_LEVEL) by { OneLevelOrdered(12, 9); }
    forall a: Word
      ensures CleanDirs(ONE_LEVEL, LOW_ONLY, a, Root(Roots(0x1000, 0x2000), a), 4)
    {
      NoDirectories(12, 9, LOW_ONLY, a, Root(Roots(0x1000, 0x2000), a));
    }
  }

  lemma OneLevelOrdered(base: nat, width: nat)
    requires base < 32 && 1 <= width <= 30
    ensures Contiguous(OneLevel(base, width))
  {
    var c := OneLevel(base, width);
    assert DirWidth(c, 0) == width && DirWidth(c, 1) == 0 && DirWidth(c, 2) == 0;
    assert DirWidth(c, 3) == 0 && DirWidth(c, 4) == 0;
  }

  lemma NoDirectories(base: nat, width: nat, mem: Memory, a: Word, root: Word)
    ensures CleanDirs(OneLevel(base, width), mem, a, root, 4) && WalkDirs(OneLevel(base, width), mem, a, root, 4) == root
  {
    assert CleanDirs(OneLevel(base, width), mem, a, root, 2) && WalkDirs(OneLevel(base, width), mem, a, root, 2) == root;
  }

  /** So transparency fails on accepted addresses that are not canonical: the second translation of this run
      returns the frame of the first. */
  lemma NotTransparentOnTwins(tlb: seq<Entry>)
    requires Empty(tlb)
    ensures Running(WORLD, State(tlb, 0, LOW_ONLY))
    ensures var steps := [Translate(TWIN_LOW, Load, 0, 0), Translate(TWIN_HIGH, Load, 0, 0)];
            Run(WORLD, State(tlb, 0, LOW_ONLY), steps) != WalkRun(WORLD, LOW_ONLY, 0, steps)
  {
    hide MapAddress, WalkTranslate, CheckPs, Walk, GoodWorld, GoodTables, Inv, Answers, Answer;
    WorldIsGood();
    EmptyIsCoherent(WORLD, LOW_ONLY, tlb);
    var s := State(tlb, 0, LOW_ONLY);
    var one, two := Translate(TWIN_LOW, Load, 0, 0), Translate(TWIN_HIGH, Load, 0, 0);
    var steps := [one, two];
    TwinsDiffer();
    SupportedSizes();
    TwinAnswers();
    PairSharesOneEntry(WORLD, LOW_ONLY, tlb, 0, TWIN_LOW, 0, TWIN_HIGH, Load, 0, 0, 0);
    var first := MapAddress(WORLD.p, LOW_ONLY, WORLD.roots(0), tlb, 0, TWIN_LOW, Load, 0, 0);
    assert steps[1..] == [two];
    assert Run(WORLD, s, steps)[1] == Match(0x5000, false, true) by {
      assert Run(WORLD, s, steps) == [first.ret] + Run(WORLD, State(first.tlb, 0, LOW_ONLY), [two]);
    }
    assert WalkRun(WORLD, LOW_ONLY, 0, steps)[1] == Invalid by {
      assert WalkRun(WORLD, LOW_ONLY, 0, steps)
          == [WalkTranslate(WORLD, LOW_ONLY, 0, TWIN_LOW, Load, 0)] + WalkRun(WORLD, LOW_ONLY, 0, [two]);
    }
  }

  /** The entry of the low twin answers for the high one, with its own frame. */
  lemma TwinAnswers()
    ensures Answers(WORLD, LOW_ONLY, 0, TWIN_LOW, 0, TWIN_HIGH)
    ensures Answer(WORLD, LOW_ONLY, 0, TWIN_LOW, TWIN_HIGH, Load, 0) == Match(0x5000, false, true)
  {
    hide CheckPs, Walk, MapPair, Shr;
    SupportsFourKiB();
    PageZero(TWIN_LOW);
    PageZero(TWIN_HIGH);
    OneTableWalk(LOW_ONLY, Roots(0x1000, 0x2000), TWIN_LOW);
    assert TWIN_LOW % TWO48 == TWIN_HIGH % TWO48;
  }

  /** The accepted addresses are not a set that a TLB serves transparently. */
  lemma AcceptedIsTooMuch()
    ensures !PairsAgree(WORLD, LOW_ONLY, (a: Word) => Accepted(a))
    ensures !TransparentOver(WORLD, LOW_ONLY, (a: Word) => Accepted(a))
  {
    hide WalkTranslate, Answers, Answer, TransparentOver, SaneSizes;
    TwinsDiffer();
    TwinAnswers();
    SupportedSizes();
    TransparentIff(WORLD, LOW_ONLY, (a: Word) => Accepted(a));
    assert !AnswersRight(WORLD, LOW_ONLY, 0, TWIN_LOW, 0, TWIN_HIGH) by {
      assert Answer(WORLD, LOW_ONLY, 0, TWIN_LOW, TWIN_HIGH, Load, 0) != WalkTranslate(WORLD, LOW_ONLY, 0, TWIN_HIGH, Load, 0);
    }
  }
}
