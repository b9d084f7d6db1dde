/**
 How a walk depends on V and D: not at all, but for those two bits of the words it returns.  So the
 page tables that V/D maintenance leaves behind are walked as the ones it started from.
 */
module MaintainedWalk {
  import opened Words
  import opened PageWalk
  import opened Tlb
  import opened TlbRuns
  import opened LittleEndian
  import opened SetVD

  /** Equal but for V and D. */
  predicate Kin(x: Word, y: Word) { x / 4 == y / 4 }

  // ---- Fields of kin ------------------------------------------------------------------------

  lemma KinFields(x: Word, y: Word)
    requires Kin(x, y)
    ensures x / 64 == y / 64 && x / 0x1000 == y / 0x1000
    ensures FlagHuge(x) == FlagHuge(y) && Level(x) == Level(y) && FlagP(x) == FlagP(y) && FlagW(x) == FlagW(y)
    ensures FlagG(x) == FlagG(y) && Plv(x) == Plv(y) && FlagNR(x) == FlagNR(y) && FlagNX(x) == FlagNX(y) && FlagRplv(x) == FlagRplv(y)
    ensures Ppn(x) == Ppn(y)
  {
    KinQuotient(x, y, 16, 64);
    KinQuotient(x, y, 32, 128);
    KinQuotient(x, y, 64, 256);
    KinQuotient(x, y, 0x400, 0x1000);
    KinQuotient(x, y, 0x800, 0x2000);
    KinQuotient(x, y, 0x0800_0000_0000_0000, 0x2000_0000_0000_0000);
    KinQuotient(x, y, 0x1000_0000_0000_0000, 0x4000_0000_0000_0000);
    KinQuotient(x, y, 0x2000_0000_0000_0000, TWO63);
  }

  lemma KinQuotient(x: Word, y: Word, d: int, e: int)
    requires Kin(x, y) && d > 0 && e == 4 * d
    ensures x / e == y / e
  {
    DivDiv(x, 4, d);
    DivDiv(y, 4, d);
  }

  /** Adding a multiple of four keeps kinship. */
  lemma KinShift(x: int, k: int)
    ensures (x + 4 * k) / 4 == x / 4 + k
  {
  }

  /** What the leaf of a huge entry adds to it depends on bits 6 and up only. */
  lemma HugeLeafOffset(x: Word, y: Word)
    requires x / 64 == y / 64
    ensures HugeLeaf(x) - x == HugeLeaf(y) - y && (HugeLeaf(x) - x) % 64 == 0
  {
    hide SetG, ClearHuge, ClearHGlobal, SetLevel, FlagHGlobal;
    var x1, y1 := SetLevel(x, 0), SetLevel(y, 0);
    StepOffset(x, y);
    KeepHigh(x, y, x1, y1);
    StepOffset(x1, y1);
    var x2, y2 := ClearHuge(x1), ClearHuge(y1);
    KeepHigh(x1, y1, x2, y2);
    StepOffset(x2, y2);
    var x3, y3 := ClearHGlobal(x2), ClearHGlobal(y2);
    KeepHigh(x2, y2, x3, y3);
    StepOffset(x3, y3);
    SumOfSixtyFours(x, x1, x2, x3, SetG(x3));
  }

  lemma SumOfSixtyFours(x: int, x1: int, x2: int, x3: int, x4: int)
    requires (x1 - x) % 64 == 0 && (x2 - x1) % 64 == 0 && (x3 - x2) % 64 == 0 && (x4 - x3) % 64 == 0
    ensures (x2 - x) % 64 == 0 && (x4 - x) % 64 == 0
  {
  }

  lemma StepOffset(x: Word, y: Word)
    requires x / 64 == y / 64
    ensures SetLevel(x, 0) - x == SetLevel(y, 0) - y && (SetLevel(x, 0) - x) % 64 == 0
    ensures ClearHuge(x) - x == ClearHuge(y) - y && (ClearHuge(x) - x) % 64 == 0
    ensures ClearHGlobal(x) - x == ClearHGlobal(y) - y && (ClearHGlobal(x) - x) % 64 == 0
    ensures SetG(x) - x == SetG(y) - y && (SetG(x) - x) % 64 == 0
    ensures FlagHGlobal(x) == FlagHGlobal(y)
  {
    hide SetLevel, ClearHuge, ClearHGlobal, SetG, FlagHGlobal;
    LevelOffset(x);
    LevelOffset(y);
    BitOffset(x);
    BitOffset(y);
  }

  /** What each change adds, from bits 6 and up. */
  lemma LevelOffset(x: Word)
    ensures SetLevel(x, 0) - x == -(x / 64 / 128 % 4) * 0x2000 && (SetLevel(x, 0) - x) % 64 == 0
    ensures FlagHGlobal(x) <==> x / 64 / 64 % 2 == 1
  {
    DivDiv(x, 64, 128);
    DivDiv(x, 64, 64);
  }

  lemma BitOffset(x: Word)
    ensures ClearHuge(x) - x == -(x / 64 % 2) * 64 && SetG(x) - x == (1 - x / 64 % 2) * 64
    ensures ClearHGlobal(x) - x == -(x / 64 / 64 % 2) * 0x1000
    ensures (ClearHuge(x) - x) % 64 == 0 && (SetG(x) - x) % 64 == 0 && (ClearHGlobal(x) - x) % 64 == 0
  {
    DivDiv(x, 64, 64);
  }

  lemma KeepHigh(x: Word, y: Word, x': Word, y': Word)
    requires x / 64 == y / 64 && x' - x == y' - y && (x' - x) % 64 == 0
    ensures x' / 64 == y' / 64
  {
    var k := (x' - x) / 64;
    DivAddMul(x, 64, k);
    DivAddMul(y, 64, k);
  }

  /** The leaf of a huge entry, and its odd half, differ from it only above bit 5. */
  lemma HugeLeafKin(x: Word, y: Word, ps: nat)
    requires Kin(x, y) && ps >= 12
    ensures Kin(HugeLeaf(x), HugeLeaf(y))
    ensures Kin((HugeLeaf(x) + Pow2(ps)) % TWO64, (HugeLeaf(y) + Pow2(ps)) % TWO64)
  {
    hide HugeLeaf, Pow2;
    DivDiv(x, 4, 16);
    DivDiv(y, 4, 16);
    HugeLeafOffset(x, y);
    SameOffset(x, y, HugeLeaf(x), HugeLeaf(y));
    OddHalfKin(HugeLeaf(x), HugeLeaf(y), ps);
  }

  lemma SameOffset(x: Word, y: Word, x': Word, y': Word)
    requires Kin(x, y) && x' - x == y' - y && (x' - x) % 64 == 0
    ensures Kin(x', y')
  {
    var k := (x' - x) / 64;
    KinShift(x, 16 * k);
    KinShift(y, 16 * k);
  }

  lemma OddHalfKin(x: Word, y: Word, ps: nat)
    requires Kin(x, y) && ps >= 12
    ensures Kin((x + Pow2(ps)) % TWO64, (y + Pow2(ps)) % TWO64)
  {
    hide Pow2;
    Pow2Add(ps - 2, 2);
    PowTwo();
    var q := Pow2(ps - 2);
    ModKin(x + 4 * q);
    ModKin(y + 4 * q);
    KinShift(x, q);
    KinShift(y, q);
  }

  lemma PowTwo()
    ensures Pow2(2) == 4
  {
  }

  lemma ModKin(x: nat)
    ensures x % TWO64 / 4 == x / 4 % (TWO64 / 4)
  {
    var k := x / TWO64;
    assert x == x % TWO64 + k * (TWO64 / 4) * 4;
    KinShift(x % TWO64, k * (TWO64 / 4));
    DivAddMul(x % TWO64 / 4, TWO64 / 4, k);
  }

  // ---- Tables up to V and D --------------------------------------------------------------------

  /** mem' is mem with V and D of leaf words changed; the walker reads aligned words only. */
  ghost predicate SameTables(leaf: nat -> bool, mem: Memory, mem': Memory) {
    forall q: nat :: q % 8 == 0 ==> if leaf(q) then Kin(mem(q), mem'(q)) else mem(q) == mem'(q)
  }

  /** The directory words on the way are aligned, and a leaf word is met as a directory exactly when it is huge. */
  ghost predicate TidyDirs(c: WalkConfig, mem: Memory, leaf: nat -> bool, a: Word, base: Word, level: nat)
    requires level <= 4
    decreases level
  {
    if level == 0 || FlagHuge(base) then true
    else if DirWidth(c, level) == 0 then TidyDirs(c, mem, leaf, a, base, level - 1)
    else
      var q := DirAddress(c, a, base, level) % TWO48;
      q % 8 == 0 && (leaf(q) <==> FlagHuge(mem(q))) && TidyDirs(c, mem, leaf, a, mem(q), level - 1)
  }

  /** Both words of the pair are aligned leaf words, and the page is at least 4 KiB. */
  ghost predicate TidyLeaf(c: WalkConfig, leaf: nat -> bool, a: Word, base: Word) {
    && LeafPs(c, base) >= 12
    && (!FlagHuge(base) ==> forall odd: bool :: PteAddress(c, a, base, odd) % TWO48 % 8 == 0 && leaf(PteAddress(c, a, base, odd) % TWO48))
  }

  /** Page tables whose leaf words are told apart from the directories above them. */
  ghost predicate Tidy(c: WalkConfig, mem: Memory, leaf: nat -> bool, roots: Roots) {
    && Ordered(c) && CleanTables(c, mem, roots)
    && forall a: Word :: Canonical(a) ==>
         && TidyDirs(c, mem, leaf, a, Root(roots, a), 4)
         && TidyLeaf(c, leaf, a, WalkDirs(c, mem, a, Root(roots, a), 4))
  }

  /** The descent ends at the same table, or at the same huge entry up to V and D. */
  lemma {:induction false} DirsKin(c: WalkConfig, mem: Memory, mem': Memory, leaf: nat -> bool, a: Word, base: Word, level: nat)
    requires level <= 4 && Ordered(c) && !FlagHuge(base) && SameTables(leaf, mem, mem')
    requires CleanDirs(c, mem, a, base, level) && TidyDirs(c, mem, leaf, a, base, level)
    ensures CleanDirs(c, mem', a, base, level) && TidyDirs(c, mem', leaf, a, base, level)
    ensures var b, b' := WalkDirs(c, mem, a, base, level), WalkDirs(c, mem', a, base, level);
            && FlagHuge(b) == FlagHuge(b') && LeafPs(c, b) == LeafPs(c, b')
            && (!FlagHuge(b) ==> b' == b)
            && HugeAddress(c, mem, a, base, level) == HugeAddress(c, mem', a, base, level)
            && (FlagHuge(b) ==>
                  var q := HugeAddress(c, mem, a, base, level) % TWO48;
                  && q % 8 == 0 && leaf(q)
                  && HugeLeaf(b) == HugeLeaf(mem(q)) && HugeLeaf(b') == HugeLeaf(mem'(q)))
    decreases level
  {
    hide FlagHuge, Level, SetLevel, Shr, Low, Pow2, BitOr, ClearHuge, SetG, FlagHGlobal, ClearHGlobal, Kin, HugeLeaf, LeafPs;
    if level > 0 {
      if DirWidth(c, level) == 0 {
        DirsKin(c, mem, mem', leaf, a, base, level - 1);
      } else {
        var q := DirAddress(c, a, base, level) % TWO48;
        if FlagHuge(mem(q)) {
          KinFields(mem(q), mem'(q));
          HugeMet(c, mem, a, mem(q), level);
          HugeMet(c, mem', a, mem'(q), level);
        } else {
          DirsKin(c, mem, mem', leaf, a, mem(q), level - 1);
        }
      }
    }
  }

  // ---- Walks up to V and D -----------------------------------------------------------------------

  /** Where the leaf word of one half of the pair lies; a huge page has one word for both. */
  function LeafAt(c: WalkConfig, mem: Memory, roots: Roots, a: Word, odd: bool): nat {
    var root := Root(roots, a);
    var base := WalkDirs(c, mem, a, root, 4);
    (if FlagHuge(base) then HugeAddress(c, mem, a, root, 4) else PteAddress(c, a, base, odd)) % TWO48
  }

  function WordOf(r: Refill, odd: bool): Word { if odd then r.lo1 else r.lo0 }

  /** A half of the refill carries V, D, P and W of its leaf word. */
  ghost predicate Carries(c: WalkConfig, mem: Memory, leaf: nat -> bool, roots: Roots, a: Word, odd: bool) {
    var q := LeafAt(c, mem, roots, a, odd);
    q % 8 == 0 && leaf(q) && SameVDFlags(WordOf(Walk(c, mem, roots, a), odd), mem(q))
  }

  /** The same walk, up to V and D: same page size, kin words, from the same leaf words. */
  lemma WalkKin(c: WalkConfig, mem: Memory, mem': Memory, leaf: nat -> bool, roots: Roots, a: Word, odd: bool)
    requires Tidy(c, mem, leaf, roots) && SameTables(leaf, mem, mem') && Canonical(a)
    ensures var r, r' := Walk(c, mem, roots, a), Walk(c, mem', roots, a);
            r'.ps == r.ps >= 12 && Kin(WordOf(r, odd), WordOf(r', odd))
    ensures FlagHuge(WalkDirs(c, mem', a, Root(roots, a), 4)) == FlagHuge(WalkDirs(c, mem, a, Root(roots, a), 4))
    ensures LeafAt(c, mem', roots, a, odd) == LeafAt(c, mem, roots, a, odd)
    ensures Carries(c, mem, leaf, roots, a, odd) && Carries(c, mem', leaf, roots, a, odd)
  {
    hide FlagHuge, FlagV, FlagD, FlagP, FlagW, Shr, Low, Pow2, BitOr, HugeLeaf, WalkDirs, CleanDirs, TidyDirs, HugeAddress, LeafPs, PteAddress,
      Ordered, Canonical;
    var root := Root(roots, a);
    DirsKin(c, mem, mem', leaf, a, root, 4);
    var b := WalkDirs(c, mem, a, root, 4);
    if FlagHuge(b) {
      var q := HugeAddress(c, mem, a, root, 4) % TWO48;
      HugeLeafKin(mem(q), mem'(q), LeafPs(c, b));
      HugeHalfFlags(mem(q), LeafPs(c, b));
      HugeHalfFlags(mem'(q), LeafPs(c, b));
    } else {
      var q := PteAddress(c, a, b, odd) % TWO48;
      assert q % 8 == 0 && leaf(q);
    }
  }

  lemma HugeHalfFlags(entry: Word, ps: nat)
    requires ps >= 12
    ensures SameVDFlags(HugeLeaf(entry), entry) && SameVDFlags((HugeLeaf(entry) + Pow2(ps)) % TWO64, entry)
  {
    hide HugeLeaf, FlagV, FlagD, FlagP, FlagW, Pow2;
    HugeLeafFlags(entry);
    OddHalfFlags(HugeLeaf(entry), ps);
  }

  /** Tidy tables stay tidy. */
  lemma TidyKept(c: WalkConfig, mem: Memory, mem': Memory, leaf: nat -> bool, roots: Roots)
    requires Tidy(c, mem, leaf, roots) && SameTables(leaf, mem, mem')
    ensures Tidy(c, mem', leaf, roots)
  {
    hide FlagHuge, Shr, Low, Pow2, BitOr, HugeLeaf, WalkDirs, CleanDirs, TidyDirs, HugeAddress, LeafPs, PteAddress, Ordered, Canonical, SameTables;
    forall a: Word | Canonical(a)
      ensures CleanDirs(c, mem', a, Root(roots, a), 4) && TidyDirs(c, mem', leaf, a, Root(roots, a), 4)
      ensures TidyLeaf(c, leaf, a, WalkDirs(c, mem', a, Root(roots, a), 4))
    {
      DirsKin(c, mem, mem', leaf, a, Root(roots, a), 4);
    }
  }

  // ---- What maintenance does to a word -------------------------------------------------------------

  lemma LoadSplit(ram: Bytes, p: nat)
    ensures LoadQ(ram, p) == ram(p) + 256 * LeValue(Eight(ram, p)[1..])
  {
  }

  /** The visited word after a walk with maintenance. */
  ghost predicate Raised(x: Word, x': Word, access: Access) {
    && Kin(x, x') && FlagV(x') == (FlagV(x) || FlagP(x))
    && FlagD(x') == (FlagD(x) || (access.Store? && FlagW(x)))
  }

  lemma LowByteChanged(x: Word, x': Word, b: int, b': int, rest: int, v: bool, d: bool)
    requires x == b + 256 * rest && x' == b' + 256 * rest && 0 <= b < 256 && 0 <= b' < 256 && b' / 4 == b / 4
    requires (b' % 2 == 1 <==> v) && (b' / 2 % 2 == 1 <==> d)
    ensures Kin(x, x') && FlagV(x') == v && FlagD(x') == d
  {
    KinShift(b, 64 * rest);
    KinShift(b', 64 * rest);
    DivAddMul(b', 2, 128 * rest);
    DivAddMul(b' / 2, 2, 64 * rest);
  }

  /** A walk with maintenance raises the visited word and no other aligned word. */
  lemma MaintainedWord(p: Params, ram: Bytes, leaf: nat -> bool, roots: Roots, a: Word, access: Access, q: nat)
    requires Tidy(p.walk, Qwords(ram), leaf, roots) && Canonical(a) && q % 8 == 0
    ensures var v, x, x' := Visited(p, Qwords(ram), roots, a), LoadQ(ram, q), LoadQ(VDRam(p, ram, roots, a, access), q);
            if q == v then Raised(x, x', access) else x' == x
    ensures Visited(p, Qwords(ram), roots, a) == LeafAt(p.walk, Qwords(ram), roots, a, SelectsOdd(p, a))
  {
    hide FlagP, FlagW, Shr, Low, Pow2, BitOr, WalkDirs, CleanTables, Ordered, LeafPs, Walk, VDRam, FlagHuge, LoadQ, Canonical, TidyDirs,
      HugeAddress, PteAddress, Kin, LeValue, FlagV, FlagD;
    var mem := Qwords(ram);
    var v, ram' := Visited(p, mem, roots, a), VDRam(p, ram, roots, a, access);
    KinSelf(leaf, mem);
    WalkKin(p.walk, mem, mem, leaf, roots, a, SelectsOdd(p, a));
    assert LeafPs(p.walk, WalkDirs(p.walk, mem, a, Root(roots, a), 4)) >= 12;
    forall x: nat
      ensures x != v ==> ram'(x) == ram(x)
    {
      WalkWritesVD(p, ram, roots, a, access, x);
    }
    WalkWritesVD(p, ram, roots, a, access, v);
    LoadSplit(ram, q);
    LoadSplit(ram', q);
    assert Eight(ram', q)[1..] == Eight(ram, q)[1..];
    if q == v {
      var e := LoadQ(ram, v);
      LowByteChanged(e, LoadQ(ram', v), ram(v), ram'(v), LeValue(Eight(ram, v)[1..]),
                     FlagV(e) || FlagP(e), FlagD(e) || (access.Store? && FlagW(e)));
    }
  }

  lemma KinSelf(leaf: nat -> bool, mem: Memory)
    ensures SameTables(leaf, mem, mem)
  {
  }
}
