/**
 A page table of four levels, walked for a base page and for a huge page with a different index at every level.
 */
module WalkExamples {
  import opened Words
  import opened PageWalk
  import opened Tlb
  import opened TlbRuns
  import opened Rights
  import opened Entries
  import opened Textbook

  /** 4 KiB pages, directories of 2 MiB, 1 GiB and 512 GiB, eight-byte entries. */
  const FOUR_LEVELS: WalkConfig := WalkConfig(12, 9, 21, 9, 30, 9, 39, 8, 0, 0, 0)
  const TREE: Memory := (q: nat) =>
    if q == 0x1008 then 0x2000
    else if q == 0x2010 then 0x3000
    else if q == 0x3018 then 0x4000
    else if q == 0x3020 then 0x60_0043
    else if q == 0x4028 then 0x7003
    else 0
  const FOREST: World := World(Params(FOUR_LEVELS, 0x3fff_f000, 12), (s: nat) => Roots(0x1000, 0x8000))

  /** Indices 1, 2, 3 and 5, offset 0x678. */
  const SMALL: Word := 0x80_0000_0000 + 2 * 0x4000_0000 + 3 * 0x20_0000 + 5 * 0x1000 + 0x678
  /** Indices 1, 2 and 4, offset 0x1_2345 in the huge page. */
  const LARGE: Word := 0x80_0000_0000 + 2 * 0x4000_0000 + 4 * 0x20_0000 + 0x1_2345

  lemma Powers()
    ensures Pow2(8) == 0x100 && Pow2(9) == 0x200 && Pow2(12) == 0x1000 && Pow2(21) == 0x20_0000 && Pow2(30) == 0x4000_0000
    ensures Pow2(39) == 0x80_0000_0000 && Pow2(20) == 0x10_0000
  {
    assert Pow2(4) == 0x10;
    assert Pow2(8) == 0x100;
    assert Pow2(12) == 0x1000;
    assert Pow2(16) == 0x1_0000;
    assert Pow2(20) == 0x10_0000;
    assert Pow2(24) == 0x100_0000;
    assert Pow2(28) == 0x1000_0000;
    assert Pow2(32) == 0x1_0000_0000;
    assert Pow2(36) == 0x10_0000_0000;
  }

  lemma Indices(a: Word)
    requires a == SMALL || a == LARGE
    ensures Selected(FOUR_LEVELS, a, 3) == 1 && Selected(FOUR_LEVELS, a, 2) == 2
    ensures Selected(FOUR_LEVELS, a, 1) == if a == SMALL then 3 else 4
    ensures a == SMALL ==> Selected(FOUR_LEVELS, a, 0) == 5
    ensures !Bit(a, 63) && Canonical(a)
  {
    hide Pow2;
    Powers();
    assert Pow2(63) == TWO63 by { Pow2Values(); }
    FieldOf(a, 39, 8);
    FieldOf(a, 30, 9);
    FieldOf(a, 21, 9);
    FieldOf(a, 12, 9);
  }

  /** The four fields of both addresses, as numbers. */
  lemma FieldOf(a: Word, base: nat, width: nat)
    requires (a == SMALL || a == LARGE) && (base, width) in [(39, 8), (30, 9), (21, 9), (12, 9)]
    ensures a / Pow2(base) % Pow2(width)
         == if base == 39 then 1 else if base == 30 then 2 else if base == 21 then (if a == SMALL then 3 else 4) else if a == SMALL then 5 else 0x12
  {
    hide Pow2;
    Powers();
    if base == 39 {
      assert a / 0x80_0000_0000 == 1;
    } else if base == 30 {
      assert a / 0x4000_0000 == 0x202;
    } else if base == 21 {
      assert a / 0x20_0000 == if a == SMALL then 0x4_0403 else 0x4_0404;
    } else {
      assert a / 0x1000 == if a == SMALL then 0x808_0605 else 0x808_0812;
    }
  }

  lemma EntryOf(a: Word, table: Word, level: nat, index: nat)
    requires level <= 3 && table % 0x1000 == 0 && table < TWO48 && Selected(FOUR_LEVELS, a, level) == index
    ensures EntryAddress(FOUR_LEVELS, a, table, level) == table + 8 * index
  {
    hide Selected, Pow2, EntryAddress;
    EightBytes();
    assert Ordered(FOUR_LEVELS) by { InOrder(); }
    assert AlignedTable(FOUR_LEVELS, table, level) by { TablesAligned(table, level); }
    EntryInTable(FOUR_LEVELS, a, table, level);
  }

  lemma TablesAligned(table: Word, level: nat)
    requires level <= 3 && table % 0x1000 == 0
    ensures AlignedTable(FOUR_LEVELS, table, level)
  {
    hide Pow2, EntryBytes;
    EightBytes();
    HalfAligned(table);
    assert Pow2(8) == 0x100 && Pow2(9) == 0x200 by { Powers(); }
    var size := Pow2(Fields(FOUR_LEVELS)[level].1) * EntryBytes(FOUR_LEVELS);
    assert size == if level == 3 then 0x800 else 0x1000;
  }

  lemma HalfAligned(x: nat)
    requires x % 0x1000 == 0
    ensures x % 0x800 == 0
  {
    DivAddMul(0, 0x800, 2 * (x / 0x1000));
  }

  lemma EightBytes()
    ensures EntryBytes(FOUR_LEVELS) == 8
  {
    assert Power8(1) == 8;
  }

  lemma InOrder()
    ensures Contiguous(FOUR_LEVELS)
  {
    var c := FOUR_LEVELS;
    assert DirWidth(c, 0) == 9 && DirWidth(c, 1) == 9 && DirWidth(c, 2) == 9 && DirWidth(c, 3) == 8 && DirWidth(c, 4) == 0;
    assert Top(c, 0) == 21 && Top(c, 1) == 30 && Top(c, 2) == 39;
  }

  /** The leaves that the two addresses end at. */
  lemma Leaves()
    ensures LeafOf(FOUR_LEVELS, TREE, SMALL, 0x1000, 4) == Leaf(0x7003, 12, false)
    ensures LeafOf(FOUR_LEVELS, TREE, LARGE, 0x1000, 4) == Leaf(0x60_0043, 21, true)
  {
    hide EntryAddress, Selected;
    LeafStep(SMALL);
    LeafStep(LARGE);
    EntryOf(SMALL, 0x4000, 0, 5) by { Indices(SMALL); }
    assert LeafOf(FOUR_LEVELS, TREE, SMALL, 0x4000, 0) == Leaf(0x7003, 12, false);
    assert !Bit(0x4000, 6) && Bit(0x60_0043, 6) by { LowPowers(); }
  }

  lemma NotHuge()
    ensures !Bit(0x2000, 6) && !Bit(0x3000, 6)
  {
    LowPowers();
  }

  /** Both descend through the first two directories to the one at 0x3000. */
  lemma LeafStep(a: Word)
    requires a == SMALL || a == LARGE
    ensures var entry := if a == SMALL then 0x4000 else 0x60_0043;
            LeafOf(FOUR_LEVELS, TREE, a, 0x1000, 4)
            == if Bit(entry, 6) then Leaf(entry, 21, true) else LeafOf(FOUR_LEVELS, TREE, a, entry, 0)
  {
    hide EntryAddress, Selected, Bit;
    Indices(a);
    EntryOf(a, 0x1000, 3, 1);
    EntryOf(a, 0x2000, 2, 2);
    EntryOf(a, 0x3000, 1, Selected(FOUR_LEVELS, a, 1));
    NotHuge();
    var entry := if a == SMALL then 0x4000 else 0x60_0043;
    assert LeafOf(FOUR_LEVELS, TREE, a, 0x3000, 1) == if Bit(entry, 6) then Leaf(entry, 21, true) else LeafOf(FOUR_LEVELS, TREE, a, entry, 0);
    assert LeafOf(FOUR_LEVELS, TREE, a, 0x1000, 3) == LeafOf(FOUR_LEVELS, TREE, a, 0x2000, 2) == LeafOf(FOUR_LEVELS, TREE, a, 0x3000, 1);
  }

  lemma {:induction false} Clean(a: Word, base: Word, level: nat)
    requires level <= 4
    ensures CleanDirs(FOUR_LEVELS, TREE, a, base, level)
    decreases level
  {
    hide DirAddress;
    if level > 0 && !FlagHuge(base) {
      Clean(a, base, level - 1);
      Clean(a, LdDir(FOUR_LEVELS, TREE, a, base, level), level - 1);
    }
  }

  lemma TreeIsGood()
    ensures GoodWorld(FOREST) && Contiguous(FOUR_LEVELS) && CleanTables(FOUR_LEVELS, TREE, FOREST.roots(0))
    ensures Supported(0x3fff_f000, 12) && Supported(0x3fff_f000, 20)
  {
    hide Canonical, CheckPs, Pow2;
    SupportedSizes();
    InOrder();
    Powers();
    forall a: Word
      ensures CleanDirs(FOUR_LEVELS, TREE, a, Root(FOREST.roots(0), a), 4)
    {
      Clean(a, Root(FOREST.roots(0), a), 4);
    }
  }

  /** What the walk gives for both: frame and offset, and no access from level 3. */
  lemma WalkedTree()
    ensures WalkTranslate(FOREST, TREE, 0, SMALL, Load, 0) == Match(0x7678, true, true)
    ensures WalkTranslate(FOREST, TREE, 0, LARGE, Store, 0) == Match(0x61_2345, true, true)
    ensures WalkTranslate(FOREST, TREE, 0, SMALL, Load, 3) == WalkTranslate(FOREST, TREE, 0, LARGE, Fetch, 3) == Privilege
  {
    hide WalkTranslate, LeafOf, Supported, GoodWorld, Contiguous, CleanTables, Bit, Checked, PageAddress, Canonical;
    TreeIsGood();
    Leaves();
    Indices(SMALL);
    Indices(LARGE);
    RootBit(FOREST.roots(0), SMALL);
    RootBit(FOREST.roots(0), LARGE);
    assert Aligned(Leaf(0x60_0043, 21, true)) by { HugeAligned(); }
    WalkIsTranslation(FOREST, TREE, 0, SMALL, Load, 0);
    WalkIsTranslation(FOREST, TREE, 0, SMALL, Load, 3);
    WalkIsTranslation(FOREST, TREE, 0, LARGE, Store, 0);
    WalkIsTranslation(FOREST, TREE, 0, LARGE, Fetch, 3);
    LeafRights(0x7003, Load);
    LeafRights(0x60_0043, Store);
    LeafRights(0x60_0043, Fetch);
    LeafAddresses();
  }

  lemma HugeAligned()
    ensures !Bit(0x60_0043, 20)
  {
    hide Pow2;
    Powers();
  }

  lemma LeafAddresses()
    ensures PageAddress(0x7003, 12, SMALL) == 0x7678 && PageAddress(0x60_0043, 21, LARGE) == 0x61_2345
  {
    hide Pow2;
    Powers();
  }

  /** Both leaves are valid, dirty and of level 0. */
  lemma LeafRights(w: Word, access: Access)
    requires w == 0x7003 || w == 0x60_0043
    ensures forall phys: nat :: Checked(w, access, 0, phys) == Match(phys, true, true) && Checked(w, access, 3, phys) == Privilege
  {
    hide Bit;
    LeafBits(w);
  }

  lemma LeafBits(w: Word)
    requires w == 0x7003 || w == 0x60_0043
    ensures Bit(w, 0) && Bit(w, 1) && !Bit(w, 2) && !Bit(w, 3) && !Bit(w, 61) && !Bit(w, 62) && !Bit(w, 63)
  {
    hide Pow2;
    LowPowers();
    Pow2Values();
  }
}
