/**
 The meaning of a translation: follow the entry that each address field selects, read the rights off the bits of the
 leaf, and add the page offset.  The walker, which fetches page pairs and splits huge pages in two, is shown to
 compute exactly this.
 */
module Textbook {
  import opened Words
  import opened PageWalk
  import opened Tlb
  import opened TlbRuns
  import opened Rights
  import opened Entries

  /** The entry that maps an address, and the size of its page. */
  datatype Leaf = Leaf(word: Word, shift: nat, huge: bool)

  /** Bit 6 of a directory entry says that it maps a huge page. */
  function LeafOf(c: WalkConfig, mem: Memory, a: Word, table: Word, level: nat): Leaf
    requires level <= 4
    decreases level
  {
    var (base, width) := Fields(c)[level];
    var entry := mem(EntryAddress(c, a, table, level));
    if level == 0 then Leaf(entry, base, false)
    else if width == 0 then LeafOf(c, mem, a, table, level - 1)
    else if Bit(entry, 6) then Leaf(entry, base, true)
    else LeafOf(c, mem, a, entry, level - 1)
  }

  /** The page size the TLB would hold: a huge page is kept as two halves. */
  function UnitShift(leaf: Leaf): int { if leaf.huge then leaf.shift - 1 else leaf.shift }

  predicate Supported(prcfg2: Word, ps: int) { 0 <= ps < 64 && Bit(prcfg2, ps) }

  function Translation(w: World, mem: Memory, asid: nat, a: Word, access: Access, plv: nat): Ret {
    var roots := w.roots(asid);
    var leaf := LeafOf(w.p.walk, mem, a, if Bit(a, 63) then roots.pgdh else roots.pgdl, 4);
    if UnitShift(leaf) >= 12 && Supported(w.p.prcfg2, UnitShift(leaf)) && Supported(w.p.prcfg2, w.p.stlbPs)
    then Checked(leaf.word, access, plv, PageAddress(leaf.word, leaf.shift, a))
    else NoMatch
  }

  /** A huge page is aligned to its own size: the frame bit just below the size is clear.  Bit 12 is HGLOBAL, not frame. */
  predicate Aligned(leaf: Leaf) { leaf.huge && leaf.shift > 13 ==> !Bit(leaf.word, leaf.shift - 1) }

  // ---- Huge pages ----------------------------------------------------------------------

  /** The leaf made of a huge entry, bit by bit: HGLOBAL moves to G, HUGE and LEVEL go, all else stays. */
  lemma HugeLeafBits(entry: Word)
    requires Level(entry) == 0
    ensures var x := HugeLeaf(entry);
            && x % 64 == entry % 64 && x / 0x2000 == entry / 0x2000 && !Bit(x, 12)
            && x / 128 % 32 == entry / 128 % 32 && (Bit(x, 6) <==> Bit(entry, 12))
  {
    var high, g, mid, h, low := entry / 0x2000, entry / 0x1000 % 2, entry / 128 % 32, entry / 64 % 2, entry % 64;
    EntryParts(entry);
    HugeLeafParts(entry, high, g, mid, h, low);
    PartsOf(high, 0, mid, g, low);
    hide HugeLeaf, Pow2;
    var x := HugeLeaf(entry);
    assert x == high * 0x2000 + mid * 128 + g * 64 + low;
    assert Bit(x, 6) <==> g == 1 by { LowPowers(); }
    assert !Bit(x, 12) && (Bit(entry, 12) <==> g == 1) by { Pow2Values(); }
  }

  lemma HugeLeafParts(entry: Word, high: nat, g: int, mid: int, h: int, low: int)
    requires 0 <= g <= 1 && 0 <= mid < 32 && 0 <= h <= 1 && 0 <= low < 64 && high % 4 == 0
    requires entry == high * 0x2000 + g * 0x1000 + mid * 128 + h * 64 + low
    ensures HugeLeaf(entry) == high * 0x2000 + mid * 128 + g * 64 + low
  {
    hide SetLevel, ClearHuge, ClearHGlobal, SetG;
    PartsOf(high, g, mid, h, low);
    assert SetLevel(entry, 0) == entry by { NoLevel(entry); }
    var w := ClearHuge(entry);
    assert w == entry - h * 64 by { BitGone(entry); }
    PartsOf(high, g, mid, 0, low);
    var u := ClearHGlobal(w);
    assert u == w - g * 0x1000 by { BitGone(w); }
    PartsOf(high, 0, mid, 0, low);
    assert SetG(u) == u + 64 by { BitGone(u); }
  }

  lemma NoLevel(w: Word)
    requires w / 0x2000 % 4 == 0
    ensures SetLevel(w, 0) == w
  {
  }

  lemma BitGone(w: Word)
    ensures ClearHuge(w) == w - w / 64 % 2 * 64 && ClearHGlobal(w) == w - w / 0x1000 % 2 * 0x1000
    ensures w / 64 % 2 == 0 ==> SetG(w) == w + 64
  {
  }

  lemma EntryParts(x: Word)
    ensures x == x / 0x2000 * 0x2000 + x / 0x1000 % 2 * 0x1000 + x / 128 % 32 * 128 + x / 64 % 2 * 64 + x % 64
  {
    DivDiv(x, 64, 2);
    DivDiv(x, 128, 32);
    DivDiv(x, 0x1000, 2);
  }

  lemma PartsOf(high: int, g: int, mid: int, h: int, low: int)
    requires 0 <= g <= 1 && 0 <= mid < 32 && 0 <= h <= 1 && 0 <= low < 64
    ensures var x := high * 0x2000 + g * 0x1000 + mid * 128 + h * 64 + low;
            x % 64 == low && x / 64 % 2 == h && x / 128 % 32 == mid && x / 0x1000 % 2 == g && x / 0x2000 == high
  {
    var x := high * 0x2000 + g * 0x1000 + mid * 128 + h * 64 + low;
    DivUnique(x, 64, high * 128 + g * 64 + mid * 2 + h, low);
    DivUnique(x, 128, high * 64 + g * 32 + mid, h * 64 + low);
    DivUnique(x, 0x1000, high * 2 + g, mid * 128 + h * 64 + low);
    DivUnique(x, 0x2000, high, g * 0x1000 + mid * 128 + h * 64 + low);
  }

  lemma HighBit(x: nat, y: nat, k: nat)
    requires k >= 13 && x / 0x2000 == y / 0x2000
    ensures x / Pow2(k) == y / Pow2(k) && Bit(x, k) == Bit(y, k)
  {
    hide Pow2;
    Pow2Add(13, k - 13);
    assert Pow2(13) == 0x2000 by { Pow2Values(); }
    DivDiv(x, 0x2000, Pow2(k - 13));
    DivDiv(y, 0x2000, Pow2(k - 13));
  }

  /** Rights look only at bits that a huge entry and both halves of its page share. */
  lemma SameRights(x: Word, y: Word, access: Access, plv: nat, phys: nat)
    requires x % 64 == y % 64 && x / TWO48 == y / TWO48
    ensures Checked(x, access, plv, phys) == Checked(y, access, plv, phys)
  {
    SameLowBits(x, y);
    SameHighBits(x, y);
    hide Bit;
  }

  lemma SameLowBits(x: Word, y: Word)
    requires x % 64 == y % 64
    ensures Bit(x, 0) == Bit(y, 0) && Bit(x, 1) == Bit(y, 1) && Bit(x, 2) == Bit(y, 2) && Bit(x, 3) == Bit(y, 3)
  {
    LowPowers();
    LowBits(x);
    LowBits(y);
  }

  lemma LowBits(x: Word)
    ensures x % 2 == x % 64 % 2 && x / 2 % 2 == x % 64 / 2 % 2 && x / 4 % 2 == x % 64 / 4 % 2 && x / 8 % 2 == x % 64 / 8 % 2
  {
    var high, low := x / 64, x % 64;
    DivAddMul(low, 2, 32 * high);
    DivAddMul(low, 4, 16 * high);
    DivAddMul(low, 8, 8 * high);
    DivAddMul(low / 2, 2, 16 * high);
    DivAddMul(low / 4, 2, 8 * high);
    DivAddMul(low / 8, 2, 4 * high);
  }

  lemma SameHighBits(x: Word, y: Word)
    requires x / TWO48 == y / TWO48
    ensures Bit(x, 61) == Bit(y, 61) && Bit(x, 62) == Bit(y, 62) && Bit(x, 63) == Bit(y, 63)
  {
    Pow2Values();
    hide Pow2;
    DivDiv(x, TWO48, 0x2000);
    DivDiv(y, TWO48, 0x2000);
    DivDiv(x, TWO48, 0x4000);
    DivDiv(y, TWO48, 0x4000);
    DivDiv(x, TWO48, 0x8000);
    DivDiv(y, TWO48, 0x8000);
  }

  /** The odd half of a huge page: one bit of the frame differs. */
  lemma OddHalf(x: Word, ps: nat)
    requires 12 <= ps <= 39 && !Bit(x, ps)
    ensures x + Pow2(ps) < TWO64
    ensures (x + Pow2(ps)) % 64 == x % 64 && (x + Pow2(ps)) / TWO48 == x / TWO48 && (x + Pow2(ps)) % TWO48 == x % TWO48 + Pow2(ps)
  {
    hide Shr, Low, Pow2;
    assert x % TWO48 + Pow2(ps) < TWO48 by {
      Pow2Values();
      ShrDiv(x, ps);
      LowMod(x, 48);
      ClearBit(x, ps, 48);
    }
    var p := Pow2(ps - 6);
    assert Pow2(ps) == 64 * p by {
      Pow2Add(ps - 6, 6);
      LowPowers();
    }
    DivAddMul(x, 64, p);
    DivUnique(x + Pow2(ps), TWO48, x / TWO48, x % TWO48 + Pow2(ps));
  }

  /** The half of a huge page that the parity bit selects gives the address of the whole page. */
  lemma HalfAddress(x: Word, ps: nat, a: Word)
    requires 12 <= ps <= 39 && !Bit(x, ps)
    ensures x + Pow2(ps) < TWO64
    ensures PageAddress(if Bit(a, ps) then x + Pow2(ps) else x, ps, a) == PageAddress(x, ps + 1, a)
  {
    hide Pow2;
    OddHalf(x, ps);
    NextPower(ps);
    BelowTop(x, ps);
    HalfSum(x % TWO48, a, Pow2(ps));
  }

  lemma NextPower(k: nat)
    ensures Pow2(k + 1) == 2 * Pow2(k)
  {
  }

  lemma BelowTop(x: Word, ps: nat)
    requires ps <= 39
    ensures x % TWO48 / Pow2(ps) % 2 == x / Pow2(ps) % 2
  {
    hide Pow2;
    hide Shr, Low;
    MiddleBits(x, ps, 1, 48);
    LowMod(x, 48);
    assert Pow2(48) == TWO48 by { Pow2Values(); }
    ShrDiv(x, ps);
    ShrDiv(x % TWO48, ps);
    LastBit(x / Pow2(ps));
    LastBit(x % TWO48 / Pow2(ps));
  }

  lemma LastBit(x: nat)
    ensures Low(x, 1) == x % 2
  {
    assert Low(x / 2, 0) == 0;
  }

  lemma HalfSum(y: nat, a: nat, p: int)
    requires p > 0 && y / p % 2 == 0
    ensures Multiple(if a / p % 2 == 1 then y + p else y, p) + a % p == Multiple(y, 2 * p) + a % (2 * p)
  {
    OffsetParts(a, p);
    FrameParts(y, p, a / p % 2);
  }

  /** The offset in the whole page is the offset in the half and the parity bit. */
  lemma OffsetParts(a: nat, p: int)
    requires p > 0
    ensures a % (2 * p) == a / p % 2 * p + a % p
  {
    var n, r := a / p, a % p;
    var m, bit := n / 2, n % 2;
    assert n * p == m * (2 * p) + bit * p by { DoubledProduct(m, bit, p); }
    assert 0 <= bit * p <= p by {
      MulMono(0, bit, p);
      MulMono(bit, 1, p);
    }
    DivUnique(a, 2 * p, m, bit * p + r);
  }

  lemma FrameParts(y: nat, p: int, bit: int)
    requires p > 0 && y / p % 2 == 0 && 0 <= bit <= 1
    ensures Multiple(if bit == 1 then y + p else y, p) == Multiple(y, 2 * p) + bit * p
  {
    var n := y / p;
    var k := n / 2;
    DivDiv(y, p, 2);
    assert p * 2 == 2 * p;
    DivAddMul(y, p, 1);
    DoubledProduct(k, bit, p);
  }

  lemma DoubledProduct(m: int, bit: int, p: int)
    ensures (2 * m + bit) * p == m * (2 * p) + bit * p
  {
    MulAssoc(m, 2, p);
    assert (2 * m + bit) * p == 2 * m * p + bit * p;
  }

  // ---- The walk ---------------------------------------------------------------------------

  /** The walker's base for an address, against the entry that maps it. */
  lemma {:induction false} WalkFindsLeaf(c: WalkConfig, mem: Memory, a: Word, table: Word, level: nat)
    requires Contiguous(c) && level <= 4 && !FlagHuge(table) && CleanDirs(c, mem, a, table, level)
    ensures var leaf, base := LeafOf(c, mem, a, table, level), WalkDirs(c, mem, a, table, level);
            && leaf.huge == FlagHuge(base)
            && LeafPs(c, base) == UnitShift(leaf)
            && (leaf.huge ==> HugeLeaf(leaf.word) == HugeLeaf(base) && Level(leaf.word) == 0)
            && (!leaf.huge ==> leaf.word == mem(EntryAddress(c, a, base, 0)))
    decreases level
  {
    hide FlagHuge, Level, SetLevel, HugeLeaf, LeafPs, EntryAddress, Bit, DirAddress;
    if level == 0 {
      SmallShift(c, table);
    } else {
      if DirWidth(c, level) == 0 {
        WalkFindsLeaf(c, mem, a, table, level - 1);
      } else {
        var entry := LdDir(c, mem, a, table, level);
        LoadsSelected(c, mem, a, table, level);
        LowFieldBits(entry);
        if FlagHuge(entry) {
          HugeMet(c, mem, a, entry, level);
        } else {
          WalkFindsLeaf(c, mem, a, entry, level - 1);
        }
      }
    }
  }

  lemma SmallShift(c: WalkConfig, table: Word)
    requires c.ptBase < 32 && !FlagHuge(table)
    ensures LeafPs(c, table) == c.ptBase
  {
  }

  lemma RootBit(roots: Roots, a: Word)
    ensures Root(roots, a) == if Bit(a, 63) then roots.pgdh else roots.pgdl
  {
    Pow2Values();
  }

  lemma SupportedIsChecked(prcfg2: Word, ps: nat)
    ensures CheckPs(prcfg2, ps) == Supported(prcfg2, ps)
  {
    ShrDiv(prcfg2, ps);
  }

  /** Every walk's answer, by the bits of the half it selects, whatever the tables. */
  lemma WalkVerdict(w: World, mem: Memory, asid: nat, a: Word, access: Access, plv: nat)
    ensures var r := WalkIn(w, mem, asid, a);
            WalkTranslate(w, mem, asid, a, access, plv)
            == if r.ps >= 12 && Supported(w.p.prcfg2, r.ps) && Supported(w.p.prcfg2, w.p.stlbPs)
               then PairVerdict(r.lo0, r.lo1, r.ps, a, access, plv, false) else NoMatch
  {
    hide Supported, CheckPs, MapPair, PairVerdict, WalkIn;
    var r := WalkIn(w, mem, asid, a);
    SupportedIsChecked(w.p.prcfg2, r.ps);
    SupportedIsChecked(w.p.prcfg2, w.p.stlbPs);
    if r.ps >= 12 { MapPairChecks(r.lo0, r.lo1, r.ps, a, access, plv, false); }
  }

  /** Fetching pairs and halving huge pages does not change the meaning of a translation. */
  lemma WalkIsTranslation(w: World, mem: Memory, asid: nat, a: Word, access: Access, plv: nat)
    requires GoodWorld(w) && Contiguous(w.p.walk) && CleanTables(w.p.walk, mem, w.roots(asid)) && Canonical(a)
    requires Aligned(LeafOf(w.p.walk, mem, a, Root(w.roots(asid), a), 4))
    ensures WalkTranslate(w, mem, asid, a, access, plv) == Translation(w, mem, asid, a, access, plv)
  {
    hide Bit, CheckPs, Supported, Checked, PageAddress, HugeLeaf, WalkDirs, LeafOf, CleanDirs, FlagHuge, Level, DirBase, DirWidth, Top, MapPair, LdPte,
      EntryAddress;
    var c := w.p.walk;
    var root := Root(w.roots(asid), a);
    RootBit(w.roots(asid), a);
    var base, leaf := WalkDirs(c, mem, a, root, 4), LeafOf(c, mem, a, root, 4);
    WalkFindsLeaf(c, mem, a, root, 4);
    var ps := LeafPs(c, base);
    assert WalkIn(w, mem, asid, a) == RefillFrom(c, mem, a, base);
    SupportedIsChecked(w.p.prcfg2, ps);
    SupportedIsChecked(w.p.prcfg2, w.p.stlbPs);
    if ps >= 12 && CheckPs(w.p.prcfg2, ps) {
      if leaf.huge {
        HugePair(c, mem, a, base, leaf, ps, access, plv);
      } else {
        assert leaf.shift == c.ptBase by { BaseShift(c, mem, a, root, 4); }
        BasePair(c, mem, a, base, leaf, access, plv);
      }
    }
  }

  lemma {:induction false} BaseShift(c: WalkConfig, mem: Memory, a: Word, table: Word, level: nat)
    requires level <= 4
    ensures var leaf := LeafOf(c, mem, a, table, level); !leaf.huge ==> leaf.shift == c.ptBase
    decreases level
  {
    hide Bit, EntryAddress;
    if level > 0 {
      BaseShift(c, mem, a, table, level - 1);
      BaseShift(c, mem, a, mem(EntryAddress(c, a, table, level)), level - 1);
    }
  }

  /** The half of a huge page that the address lies in. */
  lemma HugePair(c: WalkConfig, mem: Memory, a: Word, base: Word, leaf: Leaf, ps: nat, access: Access, plv: nat)
    requires 12 <= ps <= 39 && leaf.shift == ps + 1 && Level(leaf.word) == 0 && (ps > 12 ==> !Bit(leaf.word, ps))
    requires FlagHuge(base) && HugeLeaf(leaf.word) == HugeLeaf(base) && LeafPs(c, base) == ps
    ensures MapPair(LdPte(c, mem, a, base, false), LdPte(c, mem, a, base, true), ps, a, access, plv, false)
         == Checked(leaf.word, access, plv, PageAddress(leaf.word, ps + 1, a))
  {
    hide Bit, Pow2, Checked, HugeLeaf, FlagHuge, PteAddress, MapPair, Level, PageAddress;
    var x := HugeLeaf(leaf.word);
    HugeLeafBits(leaf.word);
    if ps > 12 { HighBit(x, leaf.word, ps); }
    OddHalf(x, ps);
    assert LdPte(c, mem, a, base, true) == x + Pow2(ps) && LdPte(c, mem, a, base, false) == x;
    HalfVerdict(x, leaf.word, ps, a, access, plv);
  }

  lemma HalfVerdict(x: Word, word: Word, ps: nat, a: Word, access: Access, plv: nat)
    requires 12 <= ps <= 39 && !Bit(x, ps) && x + Pow2(ps) < TWO64 && x % 64 == word % 64 && x / 0x2000 == word / 0x2000
    ensures MapPair(x, x + Pow2(ps), ps, a, access, plv, false) == Checked(word, access, plv, PageAddress(word, ps + 1, a))
  {
    hide Bit, Pow2, Checked, MapPair, PageAddress;
    MapPairChecks(x, x + Pow2(ps), ps, a, access, plv, false);
    HalfAddress(x, ps, a);
    var half: Word := if Bit(a, ps) then x + Pow2(ps) else x;
    assert half % 64 == x % 64 && half / TWO48 == x / TWO48 by { OddHalf(x, ps); }
    HighParts(x, word, ps, a);
    SameRights(half, word, access, plv, PageAddress(x, ps + 1, a));
  }

  /** Above bit 12 the leaf and its entry agree. */
  lemma HighParts(x: Word, y: Word, ps: nat, a: Word)
    requires ps >= 12 && x / 0x2000 == y / 0x2000
    ensures x / TWO48 == y / TWO48 && PageAddress(x, ps + 1, a) == PageAddress(y, ps + 1, a)
  {
    hide Pow2;
    DivDiv(x, 0x2000, 0x8_0000_0000);
    DivDiv(y, 0x2000, 0x8_0000_0000);
    assert x % TWO48 / 0x2000 == y % TWO48 / 0x2000 by {
      DivAddMul(x % TWO48, 0x2000, x / TWO48 * 0x8_0000_0000);
      DivAddMul(y % TWO48, 0x2000, y / TWO48 * 0x8_0000_0000);
    }
    HighBit(x % TWO48, y % TWO48, ps + 1);
  }

  /** The page of a pair that the address lies in. */
  lemma BasePair(c: WalkConfig, mem: Memory, a: Word, base: Word, leaf: Leaf, access: Access, plv: nat)
    requires leaf.shift == c.ptBase >= 12 && c.ptWidth >= 1 && !FlagHuge(base) && leaf.word == mem(EntryAddress(c, a, base, 0))
    ensures MapPair(LdPte(c, mem, a, base, false), LdPte(c, mem, a, base, true), c.ptBase, a, access, plv, false)
         == Checked(leaf.word, access, plv, PageAddress(leaf.word, leaf.shift, a))
  {
    hide Bit, Checked, FlagHuge, MapPair, LdPte, PageAddress, EntryAddress;
    MapPairChecks(LdPte(c, mem, a, base, false), LdPte(c, mem, a, base, true), c.ptBase, a, access, plv, false);
    LoadsPage(c, mem, a, base);
  }
}
