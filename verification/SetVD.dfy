/**
 Hardware maintenance of the V and D bits: what the walker writes back to the page
 table, byte by byte, and what it puts in the TLB.
 */
module SetVD {
  import opened Words
  import opened PageWalk
  import opened Tlb
  import opened LittleEndian

  /** Physical memory, byte by byte. */
  type Bytes = nat -> Byte

  function Eight(ram: Bytes, p: nat): (r: seq<Byte>)
    ensures |r| == 8 && forall i :: 0 <= i < 8 ==> r[i] == ram(p + i)
  {
    seq(8, i requires 0 <= i < 8 => ram(p + i))
  }

  /** A little-endian 64-bit load. */
  function LoadQ(ram: Bytes, p: nat): Word {
    LeBound(Eight(ram, p));
    EightBytes();
    LeValue(Eight(ram, p))
  }

  lemma EightBytes()
    ensures Power256(8) == TWO64
  {
  }

  /** A little-endian 64-bit store. */
  function StoreQ(ram: Bytes, p: nat, v: Word): Bytes {
    (x: nat) => if p <= x < p + 8 then Le(v, 8)[x - p] else ram(x)
  }

  function Qwords(ram: Bytes): Memory { (p: nat) => LoadQ(ram, p) }

  /** The refill word after hw_ptw_setVD. */
  function Updated(word: Word, access: Access): Word {
    var w := SetV(word, FlagP(word));
    if access.Store? && FlagW(word) && !FlagD(word) then SetD(w) else w
  }

  /** The page-table word that hw_ptw_setVD writes back. */
  function WriteBack(pte: Word, word: Word, access: Access): Word {
    var w := if FlagP(word) && !FlagV(word) then SetV(pte, true) else pte;
    if access.Store? && FlagW(word) && !FlagD(word) then SetD(w) else w
  }

  lemma LoadByte(ram: Bytes, p: nat, k: nat)
    requires k < 8
    ensures Le(LoadQ(ram, p), 8)[k] == ram(p + k)
  {
    hide Le, LeValue;
    LeInverse(Eight(ram, p));
  }

  /** Only bits 0 and 1 of the stored word differ from the loaded one. */
  lemma WriteBackBits(pte: Word, word: Word, access: Access)
    ensures var w := WriteBack(pte, word, access);
            && w / 4 == pte / 4
            && FlagV(w) == (FlagV(pte) || (FlagP(word) && !FlagV(word)))
            && FlagD(w) == (FlagD(pte) || (access.Store? && FlagW(word) && !FlagD(word)))
  {
    hide SetV, SetD, FlagV, FlagD, FlagP, FlagW;
    TwoFlags(pte);
    TwoFlags(SetV(pte, true));
  }

  /** Setting V or D sets that bit and no other. */
  lemma TwoFlags(x: Word)
    ensures SetV(x, true) / 4 == x / 4 && FlagV(SetV(x, true)) && FlagD(SetV(x, true)) == FlagD(x)
    ensures SetD(x) / 4 == x / 4 && FlagD(SetD(x)) && FlagV(SetD(x)) == FlagV(x)
  {
    var h, d, v := x / 4, x / 2 % 2, x % 2;
    DivDiv(x, 2, 2);
    assert x == 4 * h + 2 * d + v;
    FlagsOf(h, d, v);
    FlagsOf(h, d, 1);
    FlagsOf(h, 1, v);
  }

  lemma FlagsOf(h: int, d: int, v: int)
    requires 0 <= d <= 1 && 0 <= v <= 1
    ensures var x := 4 * h + 2 * d + v; x / 4 == h && x / 2 % 2 == d && x % 2 == v
  {
  }

  lemma LowByte(w: Word)
    ensures (w % 256) % 2 == w % 2 && ((w % 256) / 2) % 2 == (w / 2) % 2
    ensures (w / 4) / 64 == w / 256 && (w / 4) % 64 == (w % 256) / 4
  {
    var high, low := w / 256, w % 256;
    DivAddMul(low, 2, 128 * high);
    DivAddMul(low / 2, 2, 64 * high);
    DivAddMul(low, 4, 64 * high);
    DivAddMul(low / 4, 64, high);
  }

  /** hw_ptw_setVD on one entry touches one byte of memory, and in it only turns V (of a present page)
      and D (of a writable page, on a store) from 0 to 1. */
  lemma WriteBackByte(ram: Bytes, p: nat, word: Word, access: Access, x: nat)
    ensures var ram' := StoreQ(ram, p, WriteBack(LoadQ(ram, p), word, access));
            && (x != p ==> ram'(x) == ram(x))
            && ram'(p) / 4 == ram(p) / 4
            && (ram'(p) % 2 == 1 <==> ram(p) % 2 == 1 || (FlagP(word) && !FlagV(word)))
            && ((ram'(p) / 2) % 2 == 1 <==> (ram(p) / 2) % 2 == 1 || (access.Store? && FlagW(word) && !FlagD(word)))
  {
    hide FlagP, FlagW, WriteBack, LoadQ, Le;
    var pte := LoadQ(ram, p);
    var w := WriteBack(pte, word, access);
    WriteBackBits(pte, word, access);
    LowByte(pte);
    LowByte(w);
    LoadByte(ram, p, 0);
    LowestByte(pte);
    LowestByte(w);
    if p < x < p + 8 {
      LoadByte(ram, p, x - p);
      HigherBytes(w, pte, x - p);
    }
  }

  lemma LowestByte(w: Word)
    ensures Le(w, 8)[0] == w % 256
  {
  }

  lemma HigherBytes(w: Word, v: Word, k: nat)
    requires w / 256 == v / 256 && 1 <= k < 8
    ensures Le(w, 8)[k] == Le(v, 8)[k]
  {
    assert Le(w, 8) == [w % 256] + Le(w / 256, 7) && Le(v, 8) == [v % 256] + Le(v / 256, 7);
  }

  // ---- Tables filled by any means ------------------------------------------------------

  /** Holds of every reachable table, software fills included: a tag marked global has both
      halves global, and valid entries have a supported page size. */
  ghost predicate SaneEntry(p: Params, i: nat, t: Entry) {
    t.e ==> (t.g ==> FlagG(t.lo0) && FlagG(t.lo1)) && (i >= STLB ==> CheckPs(p.prcfg2, t.ps))
  }

  ghost predicate Sane(p: Params, tlb: seq<Entry>) {
    IsTable(tlb) && forall i: nat :: i < |tlb| ==> SaneEntry(p, i, tlb[i])
  }

  /** fill_tlb_entry at a given index, as TLBWR does. */
  function FillAt(p: Params, tlb: seq<Entry>, i: nat, asid: nat, vppn: nat, r: Refill): seq<Entry>
    requires IsTable(tlb) && i < TLB_MAX
  {
    if CheckPs(p.prcfg2, r.ps) then tlb[i := FillEntry(tlb[i], i, asid, vppn, r)] else tlb
  }

  lemma FillAtKeepsSane(p: Params, tlb: seq<Entry>, i: nat, asid: nat, vppn: nat, r: Refill)
    requires Sane(p, tlb) && i < TLB_MAX
    ensures Sane(p, FillAt(p, tlb, i, asid, vppn, r))
  {
  }

  lemma TlbFillIsFillAt(p: Params, tlb: seq<Entry>, asid: nat, entryHi: Word, r: Refill, rand: nat)
    requires IsTable(tlb) && CheckPs(p.prcfg2, p.stlbPs)
    ensures TlbFill(p, tlb, asid, entryHi, r, rand)
            == FillAt(p, tlb, Victim(p, entryHi, r.ps, rand), asid, Vppn(entryHi), r)
  {
  }

  lemma ClearKeepsSane(p: Params, tlb: seq<Entry>, tlb': seq<Entry>)
    requires Sane(p, tlb) && OnlyClears(tlb, tlb')
    ensures Sane(p, tlb')
  {
    forall i: nat | i < |tlb'| ensures SaneEntry(p, i, tlb'[i]) { assert SaneEntry(p, i, tlb[i]); }
  }

  /** After the page of `a` is invalidated for the current ASID, nothing matches `a`; entries that do
      not cover `a`, or are neither of that ASID nor global in their even half, are untouched. */
  lemma InvalidatedMisses(p: Params, tlb: seq<Entry>, asid: nat, a: Word)
    requires Sane(p, tlb)
    ensures var tlb' := InvalidatePageAsidOrG(p, tlb, asid, a);
            && IsTable(tlb') && Search(p, tlb', asid, a).Miss?
            && (forall i: nat :: i < TLB_MAX ==> !Hits(p, i, tlb'[i], asid, a))
            && (forall i: nat :: i < TLB_MAX && tlb'[i] != tlb[i] ==>
                  Covers(tlb[i].vppn, EntryPs(p, i, tlb[i]), a) && (FlagG(tlb[i].lo0) || tlb[i].asid == asid))
  {
    hide Search, Covers, FlagG, CheckPs;
    var tlb' := InvalidatePageAsidOrG(p, tlb, asid, a);
    forall i: nat | i < TLB_MAX ensures !Hits(p, i, tlb'[i], asid, a) {
      assert SaneEntry(p, i, tlb[i]);
    }
    SearchResult(p, tlb', asid, a);
  }

  // ---- The translation with ptw_hw_setVD -----------------------------------------------

  predicate SelectsOdd(p: Params, a: Word) { OddPage(a, p.stlbPs) }

  function ForceV(word: Word): Word { SetV(word, FlagP(word)) }

  /** The pair handed to the TLB: the visited half updated, and V copied from P in both. */
  function VDRefill(p: Params, mem: Memory, roots: Roots, a: Word, access: Access): Refill {
    var base := WalkDirs(p.walk, mem, a, Root(roots, a), 4);
    var r := RefillFrom(p.walk, mem, a, base);
    var both := FlagHuge(base);
    Refill(ForceV(if both || !SelectsOdd(p, a) then Updated(r.lo0, access) else r.lo0),
           ForceV(if both || SelectsOdd(p, a) then Updated(r.lo1, access) else r.lo1),
           r.ps)
  }

  datatype Second = Second(tlb: seq<Entry>, found: Found, ret: Ret)

  /** The second pass: page invalidated, pair filled in, search and access check repeated. */
  function SecondPass(p: Params, mem: Memory, roots: Roots, tlb: seq<Entry>, asid: nat,
                      a: Word, access: Access, plv: nat, rand: nat): (s: Second)
    requires IsTable(tlb)
    ensures IsTable(s.tlb)
  {
    var filled := TlbFill(p, InvalidatePageAsidOrG(p, tlb, asid, a), asid, EntryHi(a), VDRefill(p, mem, roots, a, access), rand);
    var found := SearchIn(p, filled, asid, a);
    if found.At? && EntryPs(p, found.index, filled[found.index]) >= 12 then
      var t := filled[found.index];
      Second(filled, found, MapPair(t.lo0, t.lo1, EntryPs(p, found.index, t), a, access, plv, true))
    else Second(filled, found, NoMatch)
  }

  /** After invalidation and refill the one entry that matches is the new one. */
  lemma SecondPassFindsFill(p: Params, mem: Memory, roots: Roots, tlb: seq<Entry>, asid: nat,
                            a: Word, access: Access, plv: nat, rand: nat)
    requires Sane(p, tlb)
    ensures var r := VDRefill(p, mem, roots, a, access);
            var s := SecondPass(p, mem, roots, tlb, asid, a, access, plv, rand);
            if CheckPs(p.prcfg2, r.ps) && CheckPs(p.prcfg2, p.stlbPs) && r.ps >= 12 then
              s.found == At(Victim(p, EntryHi(a), r.ps, rand)) && s.ret == MapPair(r.lo0, r.lo1, r.ps, a, access, plv, true)
            else s.ret == NoMatch
  {
    hide Search, Shr, Low, CheckPs, FlagG, MapPair, VDRefill, Covers;
    var r := VDRefill(p, mem, roots, a, access);
    var tlb' := InvalidatePageAsidOrG(p, tlb, asid, a);
    InvalidatedMisses(p, tlb, asid, a);
    var filled := TlbFill(p, tlb', asid, EntryHi(a), r, rand);
    SearchResult(p, filled, asid, a);
    assert Vppn(EntryHi(a)) == Vppn(a);
    if CheckPs(p.prcfg2, r.ps) && CheckPs(p.prcfg2, p.stlbPs) {
      var i := Victim(p, EntryHi(a), r.ps, rand);
      VictimPlace(p, EntryHi(a), r.ps, rand);
      assert forall j: nat :: j < TLB_MAX && j != i ==> filled[j] == tlb'[j];
      if r.ps >= 12 {
        FreshHits(p, tlb'[i], a, asid, r, rand);
      }
    }
  }

  lemma SetVFlags(w: Word, v: bool)
    ensures FlagV(SetV(w, v)) == v && FlagD(SetV(w, v)) == FlagD(w)
    ensures FlagP(SetV(w, v)) == FlagP(w) && FlagW(SetV(w, v)) == FlagW(w)
  {
    assert SetV(w, v) / 2 == w / 2;
    HalfFlags(w);
    HalfFlags(SetV(w, v));
  }

  lemma SetDFlags(w: Word)
    ensures FlagD(SetD(w)) && FlagV(SetD(w)) == FlagV(w)
    ensures FlagP(SetD(w)) == FlagP(w) && FlagW(SetD(w)) == FlagW(w)
  {
    assert SetD(w) / 4 == w / 4;
    HalfFlags(w);
    HalfFlags(SetD(w));
  }

  lemma HalfFlags(w: Word)
    ensures w / 128 == (w / 4) / 32 && w / 256 == (w / 4) / 64
    ensures w / 128 == (w / 2) / 64 && w / 256 == (w / 2) / 128
  {
  }

  lemma UpdatedFlags(word: Word, access: Access)
    ensures var w := ForceV(Updated(word, access));
            && FlagV(w) == FlagP(word) && FlagP(w) == FlagP(word) && FlagW(w) == FlagW(word)
            && FlagD(w) == (FlagD(word) || (access.Store? && FlagW(word)))
  {
    hide FlagV, FlagD, FlagP, FlagW, SetV, SetD;
    var w := SetV(word, FlagP(word));
    SetVFlags(word, FlagP(word));
    SetDFlags(w);
    SetVFlags(Updated(word, access), FlagP(Updated(word, access)));
  }

  /** The second pass asks for D again exactly when the parity bit that picked the half to update, taken at
      STLBPS, differs from the parity bit that picks the half to use; never when STLBPS.PS is PTBASE. */
  lemma SecondPassSettles(p: Params, mem: Memory, roots: Roots, tlb: seq<Entry>, asid: nat,
                          a: Word, access: Access, plv: nat, rand: nat)
    requires Sane(p, tlb)
    requires CheckPs(p.prcfg2, p.stlbPs) && CheckPs(p.prcfg2, VDRefill(p, mem, roots, a, access).ps)
    requires VDRefill(p, mem, roots, a, access).ps >= 12
    ensures var base := WalkDirs(p.walk, mem, a, Root(roots, a), 4);
            var raw := RefillFrom(p.walk, mem, a, base);
            var used := if OddPage(a, raw.ps) then raw.lo1 else raw.lo0;
            SecondPass(p, mem, roots, tlb, asid, a, access, plv, rand).ret == NeedsSetD
            <==> !FlagHuge(base) && SelectsOdd(p, a) != OddPage(a, raw.ps)
                 && access.Store? && FlagW(used) && !FlagD(used)
    ensures p.stlbPs == p.walk.ptBase ==> SecondPass(p, mem, roots, tlb, asid, a, access, plv, rand).ret != NeedsSetD
  {
    hide FlagV, FlagD, FlagP, FlagW, Updated, SetV, Shr, Low, WalkDirs, LdPte, BitOr, Frame, SecondPass, Sane;
    SecondPassFindsFill(p, mem, roots, tlb, asid, a, access, plv, rand);
    var base := WalkDirs(p.walk, mem, a, Root(roots, a), 4);
    var raw := RefillFrom(p.walk, mem, a, base);
    var used := if OddPage(a, raw.ps) then raw.lo1 else raw.lo0;
    UpdatedFlags(used, access);
    SetVFlags(used, FlagP(used));
  }

  // ---- What the walker writes to memory ------------------------------------------------

  /** Where the walk from a directory first meets a huge entry. */
  function HugeAddress(c: WalkConfig, mem: Memory, a: Word, base: Word, level: nat): nat
    requires level <= 4
    decreases level
  {
    if level == 0 then 0
    else if DirWidth(c, level) == 0 then HugeAddress(c, mem, a, base, level - 1)
    else
      var entry := LdDir(c, mem, a, base, level);
      if FlagHuge(entry) then DirAddress(c, a, base, level) else HugeAddress(c, mem, a, entry, level - 1)
  }

  /** The page-table entry whose V and D bits the walker maintains. */
  function Visited(p: Params, mem: Memory, roots: Roots, a: Word): nat {
    var root := Root(roots, a);
    var base := WalkDirs(p.walk, mem, a, root, 4);
    (if FlagHuge(base) then HugeAddress(p.walk, mem, a, root, 4)
     else PteAddress(p.walk, a, base, SelectsOdd(p, a))) % TWO48
  }

  /** Memory after the walk: one write-back for a base page, one per half for a huge page. */
  function VDRam(p: Params, ram: Bytes, roots: Roots, a: Word, access: Access): Bytes {
    var mem := Qwords(ram);
    var base := WalkDirs(p.walk, mem, a, Root(roots, a), 4);
    var r := RefillFrom(p.walk, mem, a, base);
    var v := Visited(p, mem, roots, a);
    if FlagHuge(base) then
      var ram' := StoreQ(ram, v, WriteBack(LoadQ(ram, v), r.lo0, access));
      StoreQ(ram', v, WriteBack(LoadQ(ram', v), r.lo1, access))
    else
      StoreQ(ram, v, WriteBack(LoadQ(ram, v), if SelectsOdd(p, a) then r.lo1 else r.lo0, access))
  }

  /** The four flags that hw_ptw_setVD looks at. */
  ghost predicate SameVDFlags(x: Word, y: Word) {
    FlagV(x) == FlagV(y) && FlagD(x) == FlagD(y) && FlagP(x) == FlagP(y) && FlagW(x) == FlagW(y)
  }

  lemma SameLowBits(x: Word, y: Word)
    requires x % 64 == y % 64 && (x / 128) % 4 == (y / 128) % 4
    ensures SameVDFlags(x, y)
  {
    LowBits(x);
    LowBits(y);
  }

  lemma LowBits(x: Word)
    ensures x % 2 == (x % 64) % 2 && (x / 2) % 2 == ((x % 64) / 2) % 2
    ensures (x / 128) % 2 == ((x / 128) % 4) % 2 && (x / 256) % 2 == ((x / 128) % 4) / 2
  {
    DivAddMul(x % 64, 2, 32 * (x / 64));
    DivAddMul((x % 64) / 2, 2, 16 * (x / 64));
    TwoBits(x / 128);
  }

  lemma TwoBits(y: nat)
    ensures y % 2 == (y % 4) % 2 && (y / 2) % 2 == (y % 4) / 2
  {
  }

  lemma HugeLeafFlags(entry: Word)
    ensures SameVDFlags(HugeLeaf(entry), entry)
  {
    hide SetLevel, ClearHuge, ClearHGlobal, SetG;
    var w := SetLevel(entry, 0);
    assert w % 64 == entry % 64 && (w / 128) % 4 == (entry / 128) % 4 by { SetLevelLow(entry); }
    var u := ClearHuge(w);
    assert u % 64 == w % 64 && (u / 128) % 4 == (w / 128) % 4 by { ClearHugeLow(w); }
    assert HugeLeaf(entry) % 64 == u % 64 && (HugeLeaf(entry) / 128) % 4 == (u / 128) % 4 by { MoveGlobalLow(u); }
    SameLowBits(HugeLeaf(entry), entry);
  }

  lemma SetLevelLow(w: Word)
    ensures SetLevel(w, 0) % 64 == w % 64 && (SetLevel(w, 0) / 128) % 4 == (w / 128) % 4
  {
    assert SetLevel(w, 0) % 0x2000 == w % 0x2000;
    Residues(w);
    Residues(SetLevel(w, 0));
  }

  lemma Residues(w: Word)
    ensures (w % 0x2000) % 64 == w % 64 && ((w % 0x2000) / 128) % 4 == (w / 128) % 4
    ensures (w % 0x1000) % 64 == w % 64 && ((w % 0x1000) / 128) % 4 == (w / 128) % 4
  {
    DivAddMul(w % 0x2000, 64, 128 * (w / 0x2000));
    DivAddMul(w % 0x2000, 128, 64 * (w / 0x2000));
    DivAddMul((w % 0x2000) / 128, 4, 16 * (w / 0x2000));
    DivAddMul(w % 0x1000, 64, 64 * (w / 0x1000));
    DivAddMul(w % 0x1000, 128, 32 * (w / 0x1000));
    DivAddMul((w % 0x1000) / 128, 4, 8 * (w / 0x1000));
  }

  lemma ClearHugeLow(w: Word)
    ensures ClearHuge(w) % 64 == w % 64 && ClearHuge(w) / 128 == w / 128
    ensures SetG(w) % 64 == w % 64 && SetG(w) / 128 == w / 128
  {
    var h, b, l := w / 128, w / 64 % 2, w % 64;
    DivDiv(w, 64, 2);
    assert w == h * 128 + b * 64 + l;
    DivUnique(h * 128 + l, 64, 2 * h, l);
    DivUnique(h * 128 + l, 128, h, l);
    DivUnique(h * 128 + 64 + l, 64, 2 * h + 1, l);
    DivUnique(h * 128 + 64 + l, 128, h, 64 + l);
  }

  lemma MoveGlobalLow(w: Word)
    ensures SetG(ClearHGlobal(w)) % 64 == w % 64 && (SetG(ClearHGlobal(w)) / 128) % 4 == (w / 128) % 4
  {
    var u := ClearHGlobal(w);
    assert u % 0x1000 == w % 0x1000;
    Residues(w);
    Residues(u);
    ClearHugeLow(u);
  }

  lemma OddHalfFlags(leaf: Word, ps: nat)
    requires 12 <= ps
    ensures SameVDFlags((leaf + Pow2(ps)) % TWO64, leaf)
  {
    hide FlagV, FlagD, FlagP, FlagW;
    Pow2Add(ps - 12, 12);
    Pow2Values();
    var q := Pow2(ps - 12);
    var w := (leaf + Pow2(ps)) % TWO64;
    var k := (leaf + Pow2(ps)) / TWO64;
    assert w == leaf + (q - 0x10_0000_0000_0000 * k) * 0x1000;
    DivAddMul(leaf, 0x1000, q - 0x10_0000_0000_0000 * k);
    Residues(leaf);
    Residues(w);
    SameLowBits(w, leaf);
  }

  lemma {:induction false} HugeAddressHolds(c: WalkConfig, mem: Memory, a: Word, base: Word, level: nat)
    requires level <= 4 && !FlagHuge(base) && Ordered(c) && CleanDirs(c, mem, a, base, level)
    requires FlagHuge(WalkDirs(c, mem, a, base, level))
    ensures HugeLeaf(WalkDirs(c, mem, a, base, level)) == HugeLeaf(mem(HugeAddress(c, mem, a, base, level) % TWO48))
    decreases level
  {
    hide FlagHuge, Level, SetLevel, Shr, Low, Pow2, BitOr, ClearHuge, SetG, FlagHGlobal, ClearHGlobal;
    if level > 0 {
      if DirWidth(c, level) == 0 {
        HugeAddressHolds(c, mem, a, base, level - 1);
      } else {
        var entry := LdDir(c, mem, a, base, level);
        if FlagHuge(entry) {
          TopPositive(c, level - 1);
          WalkDirsHuge(c, mem, a, entry, level - 1);
          LevelledFields(c, entry, level - 1);
        } else {
          HugeAddressHolds(c, mem, a, entry, level - 1);
        }
      }
    }
  }

  /** The refill words carry the flags of the visited entry. */
  lemma VisitedFlags(p: Params, mem: Memory, roots: Roots, a: Word)
    requires Ordered(p.walk) && CleanTables(p.walk, mem, roots) && Canonical(a)
    requires LeafPs(p.walk, WalkDirs(p.walk, mem, a, Root(roots, a), 4)) >= 12
    ensures var base := WalkDirs(p.walk, mem, a, Root(roots, a), 4);
            var r := RefillFrom(p.walk, mem, a, base);
            var entry := mem(Visited(p, mem, roots, a));
            && (FlagHuge(base) || !SelectsOdd(p, a) ==> SameVDFlags(r.lo0, entry))
            && (FlagHuge(base) || SelectsOdd(p, a) ==> SameVDFlags(r.lo1, entry))
  {
    hide FlagV, FlagD, FlagP, FlagW, FlagHuge, Shr, Low, Pow2, BitOr, HugeLeaf, WalkDirs, CleanDirs, HugeAddress,
      LeafPs, PteAddress;
    var root := Root(roots, a);
    var base := WalkDirs(p.walk, mem, a, root, 4);
    if FlagHuge(base) {
      HugeAddressHolds(p.walk, mem, a, root, 4);
      HugeLeafFlags(mem(Visited(p, mem, roots, a)));
      HugeLeafFlags(base);
      OddHalfFlags(HugeLeaf(base), LeafPs(p.walk, base));
    }
  }

  /** The walk changes one byte of memory, and in it only V (to 1 if P) and D (to 1 if W, on a store). */
  lemma WalkWritesVD(p: Params, ram: Bytes, roots: Roots, a: Word, access: Access, x: nat)
    requires Ordered(p.walk) && CleanTables(p.walk, Qwords(ram), roots) && Canonical(a)
    requires LeafPs(p.walk, WalkDirs(p.walk, Qwords(ram), a, Root(roots, a), 4)) >= 12
    ensures var v := Visited(p, Qwords(ram), roots, a);
            var entry := LoadQ(ram, v);
            var ram' := VDRam(p, ram, roots, a, access);
            && (x != v ==> ram'(x) == ram(x))
            && ram'(v) / 4 == ram(v) / 4
            && (ram'(v) % 2 == 1 <==> FlagV(entry) || FlagP(entry))
            && ((ram'(v) / 2) % 2 == 1 <==> FlagD(entry) || (access.Store? && FlagW(entry)))
  {
    hide FlagP, FlagW, Shr, Low, Pow2, BitOr, WalkDirs, CleanTables, Ordered, LeafPs, Visited, RefillFrom, WriteBack,
      FlagHuge, LoadQ, StoreQ, Canonical;
    var mem := Qwords(ram);
    var v := Visited(p, mem, roots, a);
    var base := WalkDirs(p.walk, mem, a, Root(roots, a), 4);
    var r := RefillFrom(p.walk, mem, a, base);
    VisitedFlags(p, mem, roots, a);
    LowByteOfLoad(ram, v);
    if FlagHuge(base) {
      WriteBackByte(ram, v, r.lo0, access, x);
      var ram' := StoreQ(ram, v, WriteBack(LoadQ(ram, v), r.lo0, access));
      WriteBackByte(ram', v, r.lo1, access, x);
    } else {
      WriteBackByte(ram, v, if SelectsOdd(p, a) then r.lo1 else r.lo0, access, x);
    }
  }

  lemma LowByteOfLoad(ram: Bytes, p: nat)
    ensures FlagV(LoadQ(ram, p)) == (ram(p) % 2 == 1) && FlagD(LoadQ(ram, p)) == ((ram(p) / 2) % 2 == 1)
  {
    hide LoadQ, Pow2;
    LoadByte(ram, p, 0);
    assert Le(LoadQ(ram, p), 8)[0] == LoadQ(ram, p) % 256;
    LowByte(LoadQ(ram, p));
  }
}
