/**
 The LoongArch page-table walker: directory and leaf loads, huge pages, and the
 walk that refills one TLB entry with an even/odd pair of pages.
 */
module PageWalk {
  import opened Words

  /** What a 64-bit load from each physical address returns. */
  type Memory = nat -> Word

  // ---- Page-table words -------------------------------------------------------

  predicate FlagV(w: Word) { w % 2 == 1 }
  predicate FlagD(w: Word) { (w / 2) % 2 == 1 }
  function Plv(w: Word): nat { (w / 4) % 4 }
  /** Bit 6: G in a leaf, HUGE in a directory entry. */
  predicate FlagG(w: Word) { (w / 64) % 2 == 1 }
  predicate FlagHuge(w: Word) { (w / 64) % 2 == 1 }
  predicate FlagP(w: Word) { (w / 128) % 2 == 1 }
  predicate FlagW(w: Word) { (w / 256) % 2 == 1 }
  predicate FlagHGlobal(w: Word) { (w / 0x1000) % 2 == 1 }
  /** Bits 13..14: scratch field recording the level of a huge page. */
  function Level(w: Word): nat { (w / 0x2000) % 4 }
  function Ppn(w: Word): nat { (w / 0x1000) % 0x10_0000_0000 }
  predicate FlagNR(w: Word) { (w / 0x2000_0000_0000_0000) % 2 == 1 }
  predicate FlagNX(w: Word) { (w / 0x4000_0000_0000_0000) % 2 == 1 }
  predicate FlagRplv(w: Word) { w / TWO63 == 1 }

  function SetV(w: Word, v: bool): Word { w - w % 2 + (if v then 1 else 0) }
  function SetD(w: Word): Word { w - (w / 2) % 2 * 2 + 2 }
  function SetG(w: Word): Word { w - (w / 64) % 2 * 64 + 64 }
  function ClearHuge(w: Word): Word { w - (w / 64) % 2 * 64 }
  function ClearHGlobal(w: Word): Word { w - (w / 0x1000) % 2 * 0x1000 }
  function SetLevel(w: Word, level: nat): Word
    requires level < 4
  {
    w - (w / 0x2000) % 4 * 0x2000 + level * 0x2000
  }

  /** The leaf word of a huge directory entry: scratch fields cleared, HGLOBAL moved to G. */
  function HugeLeaf(entry: Word): Word {
    var w := ClearHuge(SetLevel(entry, 0));
    if FlagHGlobal(w) then SetG(ClearHGlobal(w)) else w
  }

  // ---- Walk configuration (CSR.PWCL and CSR.PWCH) -------------------------------

  datatype WalkConfig = WalkConfig(
    ptBase: nat, ptWidth: nat,
    dir1Base: nat, dir1Width: nat,
    dir2Base: nat, dir2Width: nat,
    dir3Base: nat, dir3Width: nat,
    dir4Base: nat, dir4Width: nat,
    pteWidth: nat)

  function DirBase(c: WalkConfig, level: nat): nat {
    match level
    case 1 => c.dir1Base
    case 2 => c.dir2Base
    case 3 => c.dir3Base
    case 4 => c.dir4Base
    case _ => c.ptBase
  }

  function DirWidth(c: WalkConfig, level: nat): nat {
    match level
    case 1 => c.dir1Width
    case 2 => c.dir2Width
    case 3 => c.dir3Width
    case 4 => c.dir4Width
    case _ => c.ptWidth
  }

  /** The first address bit above every level in use at or below `level`. */
  function Top(c: WalkConfig, level: nat): nat {
    if level == 0 then c.ptBase + c.ptWidth
    else if DirWidth(c, level) == 0 then Top(c, level - 1)
    else DirBase(c, level) + DirWidth(c, level)
  }

  /** Levels in use do not overlap, and fields are as wide as the registers that hold them. */
  ghost predicate Ordered(c: WalkConfig) {
    && c.ptWidth >= 1 && c.pteWidth < 4
    && c.ptBase < 32 && c.dir1Base < 32 && c.dir2Base < 32 && c.dir3Base < 64 && c.dir4Base < 64
    && (forall level :: 0 <= level <= 4 ==> DirWidth(c, level) <= 30)
    && (forall level :: 1 <= level <= 4 && DirWidth(c, level) > 0 ==> Top(c, level - 1) <= DirBase(c, level))
  }

  /** Levels in use also leave no gap: an entry of level L spans exactly 2^DirBase(L) bytes. */
  ghost predicate Contiguous(c: WalkConfig) {
    && Ordered(c)
    && (forall level :: 1 <= level <= 4 && DirWidth(c, level) > 0 ==> Top(c, level - 1) == DirBase(c, level))
  }

  function EntryShift(c: WalkConfig): nat { (c.pteWidth + 1) * 3 }

  function Index(a: Word, base: nat, width: nat): nat { Low(Shr(a, base), width) }

  // ---- The walker ----------------------------------------------------------------

  function DirAddress(c: WalkConfig, a: Word, table: Word, level: nat): nat {
    BitOr(table % TWO48, Index(a, DirBase(c, level), DirWidth(c, level)) * Pow2(EntryShift(c)))
  }

  function LdDir(c: WalkConfig, mem: Memory, a: Word, base: Word, level: nat): Word
    requires 1 <= level <= 4
  {
    if FlagHuge(base) then
      if level == 4 || Level(base) != 0 then base else SetLevel(base, level)
    else
      mem(DirAddress(c, a, base, level) % TWO48)
  }

  /** The loop over directory levels, from `level` down to 1. */
  function WalkDirs(c: WalkConfig, mem: Memory, a: Word, base: Word, level: nat): Word
    requires level <= 4
    decreases level
  {
    if level == 0 then base
    else if DirWidth(c, level) == 0 then WalkDirs(c, mem, a, base, level - 1)
    else WalkDirs(c, mem, a, LdDir(c, mem, a, base, level), level - 1)
  }

  function PteAddress(c: WalkConfig, a: Word, table: Word, odd: bool): nat {
    var index := Index(a, c.ptBase, c.ptWidth);
    BitOr(table, (index - index % 2 + (if odd then 1 else 0)) * Pow2(EntryShift(c)))
  }

  /** The 6-bit page size that the leaf load reports: half the huge page, or the base page. */
  function LeafPs(c: WalkConfig, base: Word): nat {
    if FlagHuge(base) then (DirBase(c, Level(base)) + DirWidth(c, Level(base)) + 63) % 64 else c.ptBase % 64
  }

  function LdPte(c: WalkConfig, mem: Memory, a: Word, base: Word, odd: bool): Word {
    if FlagHuge(base) then
      if odd then (HugeLeaf(base) + Pow2(LeafPs(c, base))) % TWO64 else HugeLeaf(base)
    else
      mem(PteAddress(c, a, base, odd) % TWO48)
  }

  /** What a walk hands to the TLB; `ps` is the 6-bit field TLBREHI.PS. */
  datatype Refill = Refill(lo0: Word, lo1: Word, ps: nat)

  /** Page-table roots of one address space. */
  datatype Roots = Roots(pgdl: Word, pgdh: Word)

  function Root(roots: Roots, a: Word): Word { if a >= TWO63 then roots.pgdh else roots.pgdl }

  function RefillFrom(c: WalkConfig, mem: Memory, a: Word, base: Word): Refill {
    Refill(LdPte(c, mem, a, base, false), LdPte(c, mem, a, base, true), LeafPs(c, base))
  }

  function Walk(c: WalkConfig, mem: Memory, roots: Roots, a: Word): Refill {
    RefillFrom(c, mem, a, WalkDirs(c, mem, a, Root(roots, a), 4))
  }

  // ---- Assumptions on page tables ------------------------------------------------

  /** Huge directory entries met on the way keep the scratch LEVEL field clear. */
  ghost predicate CleanDirs(c: WalkConfig, mem: Memory, a: Word, base: Word, level: nat)
    requires level <= 4
    decreases level
  {
    if level == 0 || FlagHuge(base) then true
    else if DirWidth(c, level) == 0 then CleanDirs(c, mem, a, base, level - 1)
    else
      var entry := LdDir(c, mem, a, base, level);
      (FlagHuge(entry) ==> Level(entry) == 0) && CleanDirs(c, mem, a, entry, level - 1)
  }

  /** Bit 47 is sign-extended through bit 63. */
  predicate Canonical(a: Word) { a < 0x8000_0000_0000 || a >= TWO64 - 0x8000_0000_0000 }

  ghost predicate CleanTables(c: WalkConfig, mem: Memory, roots: Roots) {
    && !FlagHuge(roots.pgdl) && !FlagHuge(roots.pgdh)
    && forall a: Word :: Canonical(a) ==> CleanDirs(c, mem, a, Root(roots, a), 4)
  }

  // ---- Pages ---------------------------------------------------------------------

  /** The number of the even/odd page pair of `a`, for pages of 2^ps bytes. */
  function PairNumber(a: Word, ps: nat): nat { Shr(a % TWO48, ps + 1) }

  /** Canonical addresses in one pair agree on every bit above the page offset. */
  lemma PairHighBits(a: Word, b: Word, ps: nat, k: nat)
    requires Canonical(a) && Canonical(b) && ps + 1 <= 47 && k >= ps + 1
    requires PairNumber(a, ps) == PairNumber(b, ps)
    ensures Shr(a, k) == Shr(b, k)
    ensures a >= TWO63 <==> b >= TWO63
  {
    assert Shr(a, ps + 1) == Shr(b, ps + 1) && (a >= TWO63 <==> b >= TWO63) by {
      CanonicalPair(a, b, ps + 1);
    }
    assert Shr(a, k) == Shr(b, k) by { ShrAgree(a, b, ps + 1, k); }
  }

  lemma CanonicalPair(a: Word, b: Word, k: nat)
    requires Canonical(a) && Canonical(b) && k <= 47
    requires Shr(a % TWO48, k) == Shr(b % TWO48, k)
    ensures Shr(a, k) == Shr(b, k)
    ensures a >= TWO63 <==> b >= TWO63
  {
    CanonicalShift(a, k);
    CanonicalShift(b, k);
  }

  lemma CanonicalShift(a: Word, k: nat)
    requires Canonical(a) && k <= 47
    ensures var q, x := Pow2(47 - k), Shr(a % TWO48, k);
            (a >= TWO63 <==> x >= q) && Shr(a, k) == x + (if x >= q then 0x1_fffe * q else 0)
  {
    Pow2Values();
    Pow2Add(k, 47 - k);
    ShrDiv(a, k);
    ShrDiv(a % TWO48, k);
    CanonicalHalf(a, Pow2(k), Pow2(47 - k));
  }

  lemma CanonicalHalf(a: Word, p: int, q: int)
    requires Canonical(a) && p >= 1 && q >= 1 && p * q == 0x8000_0000_0000
    ensures a >= TWO63 <==> (a % TWO48) / p >= q
    ensures a / p == (a % TWO48) / p + (if (a % TWO48) / p >= q then 0x1_fffe * q else 0)
  {
    var x := a % TWO48;
    if x >= 0x8000_0000_0000 {
      DivMono(p * q, x, p);
      DivAddMul(0, p, q);
      assert p * q == q * p;
      assert a == x + 0x1_fffe * (p * q);
      assert 0x1_fffe * (p * q) == (0x1_fffe * q) * p;
      DivAddMul(x, p, 0x1_fffe * q);
    } else {
      DivMono(x, p * q - 1, p);
      assert (p * q - 1) / p == q - 1 by {
        assert p * q - 1 == (q - 1) * p + (p - 1);
        DivUnique(p * q - 1, p, q - 1, p - 1);
      }
    }
  }

  /** A huge entry after the rest of the walk: its level is recorded once. */
  function Levelled(c: WalkConfig, entry: Word, level: nat): Word
    requires level <= 3
  {
    if level == 0 then entry
    else if DirWidth(c, level) == 0 then Levelled(c, entry, level - 1)
    else SetLevel(entry, level)
  }

  lemma SetLevelFields(w: Word, level: nat)
    requires level < 4
    ensures Level(SetLevel(w, level)) == level
    ensures FlagHuge(SetLevel(w, level)) == FlagHuge(w)
  {
    var t := w / 0x2000;
    var w' := SetLevel(w, level);
    assert w' == w + (level - t % 4) * 0x2000;
    DivAddMul(w, 0x2000, level - t % 4);
    DivAddMul(w, 64, (level - t % 4) * 128);
    LevelDigit(t, level);
    EvenShift(w / 64, (level - t % 4) * 64);
  }

  lemma LevelDigit(t: int, level: nat)
    requires level < 4
    ensures (t + level - t % 4) % 4 == level
  {
  }

  lemma EvenShift(x: int, k: int)
    ensures (x + 2 * k) % 2 == x % 2
  {
  }

  lemma SetLevelTwice(w: Word, level: nat)
    requires level < 4
    ensures SetLevel(SetLevel(w, level), 0) == SetLevel(w, 0)
  {
  }

  lemma {:induction false} LevelledFields(c: WalkConfig, entry: Word, level: nat)
    requires level <= 3 && FlagHuge(entry) && Level(entry) == 0 && 1 <= Top(c, level) <= 64
    ensures FlagHuge(Levelled(c, entry, level))
    ensures LeafPs(c, Levelled(c, entry, level)) == Top(c, level) - 1
    ensures SetLevel(Levelled(c, entry, level), 0) == SetLevel(entry, 0)
  {
    hide SetLevel;
    if level > 0 {
      if DirWidth(c, level) == 0 {
        LevelledFields(c, entry, level - 1);
      } else {
        SetLevelFields(entry, level);
        SetLevelTwice(entry, level);
      }
    }
  }

  lemma {:induction false} WalkDirsHuge(c: WalkConfig, mem: Memory, a: Word, base: Word, level: nat)
    requires level <= 3 && FlagHuge(base) && Level(base) == 0
    ensures WalkDirs(c, mem, a, base, level) == Levelled(c, base, level)
    decreases level
  {
    if level > 0 {
      if DirWidth(c, level) == 0 {
        WalkDirsHuge(c, mem, a, base, level - 1);
      } else {
        assert Level(SetLevel(base, level)) == level && FlagHuge(SetLevel(base, level)) by {
          SetLevelFields(base, level);
        }
        WalkDirsLevelled(c, mem, a, SetLevel(base, level), level - 1);
      }
    }
  }

  lemma {:induction false} WalkDirsLevelled(c: WalkConfig, mem: Memory, a: Word, base: Word, level: nat)
    requires level <= 3 && FlagHuge(base) && Level(base) != 0
    ensures WalkDirs(c, mem, a, base, level) == base
    decreases level
  {
    if level > 0 { WalkDirsLevelled(c, mem, a, base, level - 1); }
  }

  /** The page pair a walk finds lies below every address bit the walk has already used. */
  lemma {:induction false} LeafBelowTop(c: WalkConfig, mem: Memory, a: Word, base: Word, level: nat)
    requires Ordered(c) && level <= 4 && !FlagHuge(base)
    requires CleanDirs(c, mem, a, base, level)
    ensures LeafPs(c, WalkDirs(c, mem, a, base, level)) < Top(c, level)
    decreases level
  {
    hide FlagHuge, Level, SetLevel, Shr, Low, Pow2, BitOr;
    if level > 0 {
      if DirWidth(c, level) == 0 {
        LeafBelowTop(c, mem, a, base, level - 1);
      } else {
        var entry := LdDir(c, mem, a, base, level);
        if FlagHuge(entry) {
          TopPositive(c, level - 1);
          WalkDirsHuge(c, mem, a, entry, level - 1);
          LevelledFields(c, entry, level - 1);
        } else {
          LeafBelowTop(c, mem, a, entry, level - 1);
        }
      }
    }
  }

  lemma {:induction false} TopPositive(c: WalkConfig, level: nat)
    requires c.ptWidth >= 1
    ensures Top(c, level) >= 1
  {
    if level > 0 { TopPositive(c, level - 1); }
  }

  /** Once a huge entry is met, the rest of the descent keeps its leaf and fixes its size by the level. */
  lemma HugeMet(c: WalkConfig, mem: Memory, a: Word, entry: Word, level: nat)
    requires 1 <= level <= 4 && Ordered(c) && DirWidth(c, level) > 0 && FlagHuge(entry) && Level(entry) == 0
    ensures var b := WalkDirs(c, mem, a, entry, level - 1);
            FlagHuge(b) && HugeLeaf(b) == HugeLeaf(entry) && LeafPs(c, b) == Top(c, level - 1) - 1
  {
    hide FlagHuge, Level, SetLevel, LeafPs, ClearHuge, SetG, FlagHGlobal, ClearHGlobal, WalkDirs, Levelled;
    TopPositive(c, level - 1);
    WalkDirsHuge(c, mem, a, entry, level - 1);
    LevelledFields(c, entry, level - 1);
  }

  /** Every canonical address of the page pair found walks the same way. */
  lemma {:induction false} WalkDirsAgree(c: WalkConfig, mem: Memory, a: Word, b: Word, base: Word, level: nat)
    requires Ordered(c) && level <= 4 && !FlagHuge(base)
    requires CleanDirs(c, mem, a, base, level)
    requires Canonical(a) && Canonical(b)
    requires var ps := LeafPs(c, WalkDirs(c, mem, a, base, level));
             ps <= 46 && PairNumber(a, ps) == PairNumber(b, ps)
    ensures WalkDirs(c, mem, b, base, level) == WalkDirs(c, mem, a, base, level)
    decreases level
  {
    hide FlagHuge, Level, SetLevel, Shr, Low, Pow2, BitOr, Canonical, PairNumber;
    var ps := LeafPs(c, WalkDirs(c, mem, a, base, level));
    if level > 0 {
      if DirWidth(c, level) == 0 {
        WalkDirsAgree(c, mem, a, b, base, level - 1);
      } else {
        var entry := LdDir(c, mem, a, base, level);
        if FlagHuge(entry) {
          TopPositive(c, level - 1);
          WalkDirsHuge(c, mem, a, entry, level - 1);
          WalkDirsHuge(c, mem, b, entry, level - 1);
          LevelledFields(c, entry, level - 1);
        } else {
          LeafBelowTop(c, mem, a, entry, level - 1);
        }
        PairHighBits(a, b, ps, DirBase(c, level));
        assert LdDir(c, mem, b, base, level) == entry;
        if !FlagHuge(entry) {
          WalkDirsAgree(c, mem, a, b, entry, level - 1);
        }
      }
    }
  }

  /** Dropping the parity bit of the page index leaves what the pair shares. */
  lemma EvenIndex(a: Word, base: nat, width: nat)
    requires width >= 1
    ensures Index(a, base, width) == Shr(a, base) % 2 + 2 * Low(Shr(a, base + 1), width - 1)
  {
    ShrSplit(a, base, base + 1);
    assert Shr(Shr(a, base), 1) == Shr(a, base) / 2;
  }

  lemma PteAgree(c: WalkConfig, a: Word, b: Word, base: Word, odd: bool)
    requires c.ptWidth >= 1
    requires Shr(a, c.ptBase + 1) == Shr(b, c.ptBase + 1)
    ensures PteAddress(c, a, base, odd) == PteAddress(c, b, base, odd)
  {
    hide Index, Shr, Low, BitOr, Pow2;
    EvenIndex(a, c.ptBase, c.ptWidth);
    EvenIndex(b, c.ptBase, c.ptWidth);
  }

  lemma RefillAgree(c: WalkConfig, mem: Memory, a: Word, b: Word, base: Word)
    requires c.ptWidth >= 1
    requires !FlagHuge(base) ==> Shr(a, c.ptBase + 1) == Shr(b, c.ptBase + 1)
    ensures RefillFrom(c, mem, a, base) == RefillFrom(c, mem, b, base)
  {
    hide HugeLeaf, Pow2, PteAddress, Shr;
    if !FlagHuge(base) {
      PteAgree(c, a, b, base, false);
      PteAgree(c, a, b, base, true);
    }
  }

  /** One walk serves the whole page pair it finds. */
  lemma WalkAgree(c: WalkConfig, mem: Memory, roots: Roots, a: Word, b: Word)
    requires Ordered(c) && CleanTables(c, mem, roots)
    requires Canonical(a) && Canonical(b)
    requires Walk(c, mem, roots, a).ps <= 46
    requires PairNumber(a, Walk(c, mem, roots, a).ps) == PairNumber(b, Walk(c, mem, roots, a).ps)
    ensures Walk(c, mem, roots, b) == Walk(c, mem, roots, a)
    ensures WalkDirs(c, mem, b, Root(roots, b), 4) == WalkDirs(c, mem, a, Root(roots, a), 4)
  {
    hide Canonical, Shr, Pow2, LdPte, WalkDirs, CleanDirs, DirBase, DirWidth, Level, Top, Low;
    var root := Root(roots, a);
    var base := WalkDirs(c, mem, a, root, 4);
    var ps := LeafPs(c, base);
    assert Shr(a, ps + 1) == Shr(b, ps + 1) && Root(roots, b) == root by { PairHighBits(a, b, ps, ps + 1); }
    assert WalkDirs(c, mem, b, root, 4) == base by { WalkDirsAgree(c, mem, a, b, root, 4); }
    assert RefillFrom(c, mem, a, base) == RefillFrom(c, mem, b, base) by { RefillAgree(c, mem, a, b, base); }
  }
}
