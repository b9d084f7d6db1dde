/**
 The MMU of one CPU as the emulator keeps it: the TLB array and the registers that
 the search, the refill, the walker and the invalidations read and overwrite.
 */
module Mmu {
  import opened Wrappers
  import opened Words
  import opened PageWalk
  import opened Tlb
  import opened SetVD
  import opened Rights
  import opened Entries

  /** Two different entries that the search looks at both match. */
  ghost predicate TwoHits(p: Params, tlb: seq<Entry>, asid: nat, a: Word)
    requires IsTable(tlb)
  {
    exists i: nat, j: nat :: i < j && Looked(p, a, i) && Looked(p, a, j)
                             && Hits(p, i, tlb[i], asid, a) && Hits(p, j, tlb[j], asid, a)
  }

  /** No entry that the search looks at in the given range matches, other than the one found. */
  ghost predicate OnlyHit(p: Params, tlb: seq<Entry>, asid: nat, a: Word, from: nat, to: nat, found: Found)
    requires IsTable(tlb)
  {
    forall k: nat :: from <= k < to && Looked(p, a, k) && found != At(k) ==> !Hits(p, k, tlb[k], asid, a)
  }

  lemma {:induction false} SkipStlb(p: Params, tlb: seq<Entry>, asid: nat, a: Word, from: nat, way: nat)
    requires IsTable(tlb) && from <= way <= 8
    requires forall k: nat :: from <= k < way ==> !Hits(p, k * 256 + SetIndex(p, a), tlb[k * 256 + SetIndex(p, a)], asid, a)
    ensures FindStlb(p, tlb, asid, a, from) == FindStlb(p, tlb, asid, a, way)
    decreases way - from
  {
    hide Hits, Low, SetIndex;
    if from < way { SkipStlb(p, tlb, asid, a, from + 1, way); }
  }

  lemma {:induction false} SkipMtlb(p: Params, tlb: seq<Entry>, asid: nat, a: Word, from: nat, i: nat)
    requires IsTable(tlb) && STLB <= from <= i <= TLB_MAX
    requires forall k: nat :: from <= k < i ==> !Hits(p, k, tlb[k], asid, a)
    ensures FindMtlb(p, tlb, asid, a, from) == FindMtlb(p, tlb, asid, a, i)
    decreases i - from
  {
    hide Hits;
    if from < i { SkipMtlb(p, tlb, asid, a, from + 1, i); }
  }

  /** A huge base stays huge through the remaining levels. */
  lemma HugeStaysHuge(c: WalkConfig, mem: Memory, a: Word, base: Word, level: nat)
    requires 1 <= level <= 4
    ensures FlagHuge(base) ==> FlagHuge(LdDir(c, mem, a, base, level))
    ensures FlagHuge(LdDir(c, mem, a, base, level)) && !FlagHuge(base) ==>
              DirWidth(c, level) != 0 ==> HugeAddress(c, mem, a, base, level) == DirAddress(c, a, base, level)
  {
    if FlagHuge(base) && level < 4 {
      SetLevelFields(base, level);
    }
  }

  lemma HitHasSize(p: Params, i: nat, t: Entry, asid: nat, a: Word)
    requires Hits(p, i, t, asid, a)
    ensures EntryPs(p, i, t) >= 12
  {
  }

  lemma NoVDNoRequest(lo0: Word, lo1: Word, ps: nat, a: Word, access: Access, plv: nat)
    requires ps >= 12
    ensures MapPair(lo0, lo1, ps, a, access, plv, false) != NeedsSetD
  {
  }

  /** Search and access check on the table as it is. */
  function FirstPass(p: Params, tlb: seq<Entry>, asid: nat, a: Word, access: Access, plv: nat): Option<Ret>
    requires IsTable(tlb)
  {
    var found := SearchIn(p, tlb, asid, a);
    if found.At? && EntryPs(p, found.index, tlb[found.index]) >= 12 then
      var t := tlb[found.index];
      Some(MapPair(t.lo0, t.lo1, EntryPs(p, found.index, t), a, access, plv, true))
    else None
  }

  /** Some entry that matches gives this answer, by the bits of its two words. */
  ghost predicate Answered(p: Params, tlb: seq<Entry>, asid: nat, a: Word, access: Access, plv: nat, setVD: bool, ret: Ret)
    requires IsTable(tlb)
  {
    exists i: nat :: i < TLB_MAX && Hits(p, i, tlb[i], asid, a)
                     && ret == PairVerdict(tlb[i].lo0, tlb[i].lo1, EntryPs(p, i, tlb[i]), a, access, plv, setVD)
  }

  lemma AnswersByBits(p: Params, tlb: seq<Entry>, i: nat, asid: nat, a: Word, access: Access, plv: nat, setVD: bool)
    requires IsTable(tlb) && i < TLB_MAX && Hits(p, i, tlb[i], asid, a) && EntryPs(p, i, tlb[i]) >= 12
    ensures Answered(p, tlb, asid, a, access, plv, setVD, MapPair(tlb[i].lo0, tlb[i].lo1, EntryPs(p, i, tlb[i]), a, access, plv, setVD))
  {
    hide MapPair, PairVerdict, Hits;
    MapPairChecks(tlb[i].lo0, tlb[i].lo1, EntryPs(p, i, tlb[i]), a, access, plv, setVD);
  }

  class Cpu {
    const tlb: array<Entry>
    // Configuration
    var walk: WalkConfig
    var prcfg2: Word
    var stlbPs: nat
    // Current address space
    var asid: nat
    var pgdl: Word
    var pgdh: Word
    // TLB refill registers
    var istlbr: bool
    var tlbrbadv: Word
    var tlbrVppn: nat
    var tlbrPs: nat
    var tlbrelo0: Word
    var tlbrelo1: Word
    // TLB access registers
    var tlbidxIndex: nat
    var tlbidxPs: nat
    var tlbidxNe: bool
    var tlbehi: Word
    var tlbelo0: Word
    var tlbelo1: Word
    // Memory
    var ram: Bytes

    ghost predicate Valid()
      reads this
    {
      tlb.Length == TLB_MAX && tlbrVppn < 0x8_0000_0000 && tlbrPs < 64 && tlbidxPs < 64
    }

    function P(): Params
      reads this
    {
      Params(walk, prcfg2, stlbPs)
    }

    /** The STLB half of loongarch_tlb_search, from its first loop. */
    method SearchStlb(vaddr: Word, check: bool) returns (found: Found, multi: bool)
      requires Valid()
      ensures multi ==> check && TwoHits(P(), tlb[..], asid, vaddr)
      ensures !multi ==> found == FindStlb(P(), tlb[..], asid, vaddr, 0)
      ensures !multi && (check || found.Miss?) ==> OnlyHit(P(), tlb[..], asid, vaddr, 0, STLB, found)
    {
      hide Hits, SetIndex;
      var p := P();
      var set_ := SetIndex(p, vaddr);
      found, multi := Miss, false;
      var way := 0;
      while way < 8
        invariant 0 <= way <= 8
        invariant found.At? ==> check && found.index < way * 256 && FindStlb(p, tlb[..], asid, vaddr, 0) == found
                                && Looked(p, vaddr, found.index) && Hits(p, found.index, tlb[found.index], asid, vaddr)
        invariant forall k: nat :: k < way && found != At(k * 256 + set_) ==>
                    !Hits(p, k * 256 + set_, tlb[k * 256 + set_], asid, vaddr)
      {
        var i := way * 256 + set_;
        if Hits(p, i, tlb[i], asid, vaddr) {
          if found.At? {
            assert Looked(p, vaddr, i);
            return found, true;
          }
          SkipStlb(p, tlb[..], asid, vaddr, 0, way);
          found := At(i);
          if !check {
            return;
          }
        }
        way := way + 1;
      }
      if found.Miss? {
        SkipStlb(p, tlb[..], asid, vaddr, 0, 8);
      }
      forall k: nat | k < STLB && Looked(p, vaddr, k) && found != At(k)
        ensures !Hits(p, k, tlb[k], asid, vaddr)
      {
        assert k == k / 256 * 256 + set_;
      }
    }

    /** loongarch_tlb_search.  `check` is the multi-hit check level; `multi` reports that one of
        its assertions fires. */
    method TlbSearch(vaddr: Word, check: bool) returns (found: Found, multi: bool)
      requires Valid()
      ensures multi <==> check && TwoHits(P(), tlb[..], asid, vaddr)
      ensures !multi ==> found == Search(P(), tlb[..], asid, vaddr)
    {
      hide Hits, SetIndex;
      var p := P();
      found, multi := SearchStlb(vaddr, check);
      if multi || (found.At? && !check) {
        return;
      }
      ghost var first := found;
      FindStlbResult(p, tlb[..], asid, vaddr, 0);
      var i := STLB;
      while i < TLB_MAX
        invariant STLB <= i <= TLB_MAX
        invariant first.At? ==> found == first
        invariant found.At? ==> check && found.index < i && Looked(p, vaddr, found.index)
                                && Hits(p, found.index, tlb[found.index], asid, vaddr)
        invariant found.At? && first.Miss? ==> FindMtlb(p, tlb[..], asid, vaddr, STLB) == found
        invariant forall k: nat :: STLB <= k < i && found != At(k) ==> !Hits(p, k, tlb[k], asid, vaddr)
      {
        if Hits(p, i, tlb[i], asid, vaddr) {
          if found.At? {
            assert Looked(p, vaddr, i);
            return found, true;
          }
          SkipMtlb(p, tlb[..], asid, vaddr, STLB, i);
          found := At(i);
          if !check {
            return;
          }
        }
        i := i + 1;
      }
      if found.Miss? {
        SkipMtlb(p, tlb[..], asid, vaddr, STLB, TLB_MAX);
      }
      assert OnlyHit(p, tlb[..], asid, vaddr, 0, TLB_MAX, found);
    }

    // ---- Refill --------------------------------------------------------------------

    function HiReg(): Word
      requires Valid()
      reads this
    {
      if istlbr then tlbrVppn * 0x2000 else tlbehi
    }

    function FillWords(): Refill
      reads this
    {
      if istlbr then Refill(tlbrelo0, tlbrelo1, tlbrPs) else Refill(tlbelo0, tlbelo1, tlbidxPs)
    }

    /** fill_tlb_entry. */
    method FillTlbEntry(index: nat)
      requires Valid() && index < TLB_MAX
      modifies tlb
      ensures tlb[..] == FillAt(P(), old(tlb[..]), index, asid, Vppn(HiReg()), FillWords())
    {
      var r := FillWords();
      if !CheckPs(prcfg2, r.ps) {
        return;
      }
      var t := tlb[index];
      if index >= STLB {
        t := t.(ps := r.ps);
      }
      t := t.(vppn := Vppn(HiReg()), e := true, asid := asid);
      t := t.(g := FlagG(r.lo0) && FlagG(r.lo1));
      tlb[index] := t.(lo0 := r.lo0, lo1 := r.lo1);
    }

    /** helper_tlbfill; `rand` is the random number that picks the victim. */
    method FillRandom(rand: nat)
      requires Valid()
      modifies tlb
      ensures tlb[..] == TlbFill(P(), old(tlb[..]), asid, HiReg(), FillWords(), rand)
    {
      var pagesize := FillWords().ps;
      if !CheckPs(prcfg2, pagesize) || !CheckPs(prcfg2, stlbPs) {
        return;
      }
      var index := Victim(P(), HiReg(), pagesize, rand);
      FillTlbEntry(index);
    }

    /** helper_tlbwr. */
    method TlbWr()
      requires Valid() && tlbidxIndex < TLB_MAX
      modifies tlb
      ensures tlb[..] ==
              if tlbidxNe then old(tlb[..])[tlbidxIndex := Cleared(old(tlb[tlbidxIndex]))]
              else FillAt(P(), old(tlb[..]), tlbidxIndex, asid, Vppn(HiReg()), FillWords())
    {
      if tlbidxNe {
        tlb[tlbidxIndex] := Cleared(tlb[tlbidxIndex]);
        return;
      }
      FillTlbEntry(tlbidxIndex);
    }

    // ---- Invalidation ----------------------------------------------------------------

    method InvtlbAll()
      requires Valid()
      modifies tlb
      ensures tlb[..] == InvalidateAll(old(tlb[..]))
    {
      for i := 0 to TLB_MAX
        invariant forall k :: 0 <= k < i ==> tlb[k] == Cleared(old(tlb[k]))
        invariant forall k :: i <= k < TLB_MAX ==> tlb[k] == old(tlb[k])
      {
        tlb[i] := Cleared(tlb[i]);
      }
    }

    method InvtlbAllG(g: bool)
      requires Valid()
      modifies tlb
      ensures tlb[..] == InvalidateG(old(tlb[..]), g)
    {
      hide FlagG;
      for i := 0 to TLB_MAX
        invariant forall k :: 0 <= k < i ==>
                    tlb[k] == if FlagG(old(tlb[k]).lo0) == g then Cleared(old(tlb[k])) else old(tlb[k])
        invariant forall k :: i <= k < TLB_MAX ==> tlb[k] == old(tlb[k])
      {
        if FlagG(tlb[i].lo0) == g {
          tlb[i] := Cleared(tlb[i]);
        }
      }
    }

    method InvtlbAllAsid(id: nat)
      requires Valid()
      modifies tlb
      ensures tlb[..] == InvalidateAsid(old(tlb[..]), id)
    {
      hide FlagG;
      for i := 0 to TLB_MAX
        invariant forall k :: 0 <= k < i ==>
                    tlb[k] == if !FlagG(old(tlb[k]).lo0) && old(tlb[k]).asid == id then Cleared(old(tlb[k])) else old(tlb[k])
        invariant forall k :: i <= k < TLB_MAX ==> tlb[k] == old(tlb[k])
      {
        if !FlagG(tlb[i].lo0) && tlb[i].asid == id {
          tlb[i] := Cleared(tlb[i]);
        }
      }
    }

    method InvtlbPageAsid(id: nat, a: Word)
      requires Valid()
      modifies tlb
      ensures tlb[..] == InvalidatePageAsid(P(), old(tlb[..]), id, a)
    {
      hide FlagG, Covers;
      var p := P();
      for i := 0 to TLB_MAX
        invariant tlb[..i] == InvalidatePageAsid(p, old(tlb[..]), id, a)[..i]
        invariant forall k :: i <= k < TLB_MAX ==> tlb[k] == old(tlb[k])
      {
        var t := tlb[i];
        if t.e {
          if !FlagG(t.lo0) && t.asid == id && Covers(t.vppn, EntryPs(p, i, t), a) {
            tlb[i] := Cleared(t);
          }
        }
      }
    }

    method InvtlbPageAsidOrG(id: nat, a: Word)
      requires Valid()
      modifies tlb
      ensures tlb[..] == InvalidatePageAsidOrG(P(), old(tlb[..]), id, a)
    {
      hide FlagG, Covers;
      var p := P();
      for i := 0 to TLB_MAX
        invariant tlb[..i] == InvalidatePageAsidOrG(p, old(tlb[..]), id, a)[..i]
        invariant forall k :: i <= k < TLB_MAX ==> tlb[k] == old(tlb[k])
      {
        var t := tlb[i];
        if t.e {
          if (FlagG(t.lo0) || t.asid == id) && Covers(t.vppn, EntryPs(p, i, t), a) {
            tlb[i] := Cleared(t);
          }
        }
      }
    }

    method TlbClr()
      requires Valid()
      modifies tlb
      ensures tlb[..] == ClearLine(old(tlb[..]), asid, tlbidxIndex)
    {
      hide FlagG;
      if tlbidxIndex < STLB {
        var line := tlbidxIndex % 256;
        for i := 0 to 8
          invariant forall k :: 0 <= k < TLB_MAX ==>
                      tlb[k] == if k < i * 256 && k % 256 == line && !FlagG(old(tlb[k]).lo0) && old(tlb[k]).asid == asid
                                then Cleared(old(tlb[k])) else old(tlb[k])
        {
          var t := tlb[i * 256 + line];
          if !FlagG(t.lo0) && t.asid == asid {
            tlb[i * 256 + line] := Cleared(t);
          }
        }
      } else if tlbidxIndex < TLB_MAX {
        for i := STLB to TLB_MAX
          invariant forall k :: 0 <= k < TLB_MAX ==>
                      tlb[k] == if STLB <= k < i && !FlagG(old(tlb[k]).lo0) && old(tlb[k]).asid == asid
                                then Cleared(old(tlb[k])) else old(tlb[k])
        {
          if !FlagG(tlb[i].lo0) && tlb[i].asid == asid {
            tlb[i] := Cleared(tlb[i]);
          }
        }
      }
    }

    method TlbFlush()
      requires Valid()
      modifies tlb
      ensures tlb[..] == FlushLine(old(tlb[..]), tlbidxIndex)
    {
      if tlbidxIndex < STLB {
        var line := tlbidxIndex % 256;
        for i := 0 to 8
          invariant forall k :: 0 <= k < TLB_MAX ==>
                      tlb[k] == if k < i * 256 && k % 256 == line then Cleared(old(tlb[k])) else old(tlb[k])
        {
          tlb[i * 256 + line] := Cleared(tlb[i * 256 + line]);
        }
      } else if tlbidxIndex < TLB_MAX {
        for i := STLB to TLB_MAX
          invariant forall k :: 0 <= k < TLB_MAX ==>
                      tlb[k] == if STLB <= k < i then Cleared(old(tlb[k])) else old(tlb[k])
        {
          tlb[i] := Cleared(tlb[i]);
        }
      }
    }

    // ---- The walker ------------------------------------------------------------------

    function CurrentRoots(): Roots
      reads this
    {
      Roots(pgdl, pgdh)
    }

    /** helper_lddir; `dirPhys` stays as it was when the base is already a huge entry. */
    method LoadDir(base: Word, level: nat, dirPhys0: nat) returns (ret: Word, dirPhys: nat)
      requires 1 <= level <= 4
      ensures ret == LdDir(walk, Qwords(ram), tlbrbadv, base, level)
      ensures dirPhys == if FlagHuge(base) then dirPhys0 else DirAddress(walk, tlbrbadv, base, level)
      ensures !FlagHuge(base) ==> ret == LoadQ(ram, EntryAddress(walk, tlbrbadv, base, level))
    {
      hide FlagHuge, Level, SetLevel, BitOr, LoadQ, Pow2, Low, Shr, EntryAddress;
      dirPhys := dirPhys0;
      if FlagHuge(base) {
        ret := if level == 4 || Level(base) != 0 then base else SetLevel(base, level);
        return;
      }
      LoadsSelected(walk, Qwords(ram), tlbrbadv, base, level);
      dirPhys := DirAddress(walk, tlbrbadv, base, level);
      ret := LoadQ(ram, dirPhys % TWO48);
    }

    /** helper_ldpte. */
    method LoadPte(base: Word, odd: bool) returns (ptePhys: nat)
      modifies this`tlbrelo0, this`tlbrelo1, this`tlbrPs
      ensures tlbrPs == LeafPs(walk, base) && tlbrPs < 64
      ensures tlbrelo0 == if odd then old(tlbrelo0) else LdPte(walk, Qwords(ram), tlbrbadv, base, false)
      ensures tlbrelo1 == if odd then LdPte(walk, Qwords(ram), tlbrbadv, base, true) else old(tlbrelo1)
      ensures !FlagHuge(base) ==> ptePhys == PteAddress(walk, tlbrbadv, base, odd)
    {
      hide FlagHuge, Level, HugeLeaf, BitOr, LoadQ, Pow2, Low, Shr;
      ptePhys := 0;
      var word: Word;
      var ps := LeafPs(walk, base);
      if FlagHuge(base) {
        word := HugeLeaf(base);
        if odd {
          word := (word + Pow2(ps)) % TWO64;
        }
      } else {
        ptePhys := PteAddress(walk, tlbrbadv, base, odd);
        word := LoadQ(ram, ptePhys % TWO48);
      }
      if odd {
        tlbrelo1 := word;
      } else {
        tlbrelo0 := word;
      }
      tlbrPs := ps;
    }

    /** The loop over the directory levels in loongarch_map_address. */
    method WalkDirectories(address: Word) returns (base: Word, isHuge: bool, hugePhys: nat)
      requires tlbrbadv == address && !FlagHuge(Root(CurrentRoots(), address))
      ensures base == WalkDirs(walk, Qwords(ram), address, Root(CurrentRoots(), address), 4)
      ensures isHuge == FlagHuge(base)
      ensures isHuge ==> hugePhys == HugeAddress(walk, Qwords(ram), address, Root(CurrentRoots(), address), 4)
    {
      hide FlagHuge, LdDir, DirAddress, LoadQ;
      ghost var mem := Qwords(ram);
      ghost var root := Root(CurrentRoots(), address);
      base := if address >= TWO63 then pgdh else pgdl;
      isHuge, hugePhys := false, 0;
      var dirPhys: nat := 0;
      var level := 4;
      while level >= 1
        invariant 0 <= level <= 4
        invariant isHuge == FlagHuge(base)
        invariant WalkDirs(walk, mem, address, base, level) == WalkDirs(walk, mem, address, root, 4)
        invariant isHuge ==> hugePhys == HugeAddress(walk, mem, address, root, 4)
        invariant !isHuge ==> HugeAddress(walk, mem, address, base, level) == HugeAddress(walk, mem, address, root, 4)
      {
        if DirWidth(walk, level) != 0 {
          HugeStaysHuge(walk, mem, address, base, level);
          base, dirPhys := LoadDir(base, level, dirPhys);
          if FlagHuge(base) && !isHuge {
            hugePhys, isHuge := dirPhys, true;
          }
        }
        level := level - 1;
      }
    }

    /** hw_ptw_setVD. */
    method HwPtwSetVD(word: Word, pteAddr: nat, access: Access) returns (word': Word)
      modifies this`ram
      ensures word' == Updated(word, access)
      ensures var v := pteAddr % TWO48;
              ram == StoreQ(old(ram), v, WriteBack(LoadQ(old(ram), v), word, access))
    {
      hide FlagP, FlagV, FlagW, FlagD, SetV, SetD, LoadQ;
      var writeD := false;
      var writeV := FlagP(word) && !FlagV(word);
      word' := SetV(word, FlagP(word));
      if access.Store? && FlagW(word) && !FlagD(word) {
        word' := SetD(word');
        writeD := true;
      }
      var pte := LoadQ(ram, pteAddr % TWO48);
      if writeV {
        pte := SetV(pte, true);
      }
      if writeD {
        pte := SetD(pte);
      }
      ram := StoreQ(ram, pteAddr % TWO48, pte);
    }

    /** The V/D part of the refill: the visited half, or both halves of a huge page. */
    method MaintainVD(address: Word, access: Access, isHuge: bool, hugePhys: nat, pte0: nat, pte1: nat)
      modifies this`tlbrelo0, this`tlbrelo1, this`ram
      ensures var odd := OddPage(address, stlbPs);
              && tlbrelo0 == ForceV(if isHuge || !odd then Updated(old(tlbrelo0), access) else old(tlbrelo0))
              && tlbrelo1 == ForceV(if isHuge || odd then Updated(old(tlbrelo1), access) else old(tlbrelo1))
      ensures var v := (if isHuge then hugePhys else if OddPage(address, stlbPs) then pte1 else pte0) % TWO48;
              ram == if isHuge then
                       var ram' := StoreQ(old(ram), v, WriteBack(LoadQ(old(ram), v), old(tlbrelo0), access));
                       StoreQ(ram', v, WriteBack(LoadQ(ram', v), old(tlbrelo1), access))
                     else
                       var word := if OddPage(address, stlbPs) then old(tlbrelo1) else old(tlbrelo0);
                       StoreQ(old(ram), v, WriteBack(LoadQ(old(ram), v), word, access))
    {
      hide Updated, StoreQ, WriteBack, LoadQ, FlagP, SetV, Shr;
      if isHuge {
        tlbrelo0 := HwPtwSetVD(tlbrelo0, hugePhys, access);
        tlbrelo1 := HwPtwSetVD(tlbrelo1, hugePhys, access);
      } else {
        if OddPage(address, stlbPs) {
          tlbrelo1 := HwPtwSetVD(tlbrelo1, pte1, access);
        } else {
          tlbrelo0 := HwPtwSetVD(tlbrelo0, pte0, access);
        }
      }
      tlbrelo0 := SetV(tlbrelo0, FlagP(tlbrelo0));
      tlbrelo1 := SetV(tlbrelo1, FlagP(tlbrelo1));
    }

    /** Loads the refill registers for the address: walk, leaf loads, optional V/D maintenance. */
    method PrepareRefill(address: Word, access: Access, setVD: bool)
      requires Valid() && !FlagHuge(Root(CurrentRoots(), address))
      modifies this`istlbr, this`tlbrbadv, this`tlbrVppn, this`tlbrPs, this`tlbrelo0, this`tlbrelo1, this`ram
      ensures Valid() && istlbr && HiReg() == EntryHi(address)
      ensures FillWords() == if setVD then VDRefill(P(), Qwords(old(ram)), CurrentRoots(), address, access)
                             else Walk(walk, Qwords(old(ram)), CurrentRoots(), address)
      ensures ram == if setVD then VDRam(P(), old(ram), CurrentRoots(), address, access) else old(ram)
    {
      hide FlagHuge, WalkDirs, LdPte, LeafPs, Updated, StoreQ, WriteBack, LoadQ, HugeAddress, PteAddress, ForceV,
        OddPage, Root;
      istlbr, tlbrbadv, tlbrVppn := true, address, Vppn(address);
      var base, isHuge, hugePhys := WalkDirectories(address);
      var pte0 := LoadPte(base, false);
      var pte1 := LoadPte(base, true);
      if setVD {
        MaintainVD(address, access, isHuge, hugePhys, pte0, pte1);
      }
    }

    /** The refill part of loongarch_map_address, with the refill registers saved and restored around it. */
    method WalkAndFill(address: Word, access: Access, setVD: bool, rand: nat)
      requires Valid() && !FlagHuge(Root(CurrentRoots(), address))
      modifies tlb, this`istlbr, this`tlbrbadv, this`tlbrVppn, this`tlbrPs, this`tlbrelo0, this`tlbrelo1, this`ram
      ensures Valid()
      ensures istlbr == old(istlbr) && tlbrbadv == old(tlbrbadv) && tlbrVppn == old(tlbrVppn) && tlbrPs == old(tlbrPs)
      ensures tlbrelo0 == old(tlbrelo0) && tlbrelo1 == old(tlbrelo1)
      ensures !setVD ==>
                && ram == old(ram)
                && tlb[..] == TlbFill(P(), old(tlb[..]), asid, EntryHi(address),
                                      Walk(walk, Qwords(old(ram)), CurrentRoots(), address), rand)
      ensures setVD ==>
                && ram == VDRam(P(), old(ram), CurrentRoots(), address, access)
                && tlb[..] == TlbFill(P(), InvalidatePageAsidOrG(P(), old(tlb[..]), asid, address), asid, EntryHi(address),
                                      VDRefill(P(), Qwords(old(ram)), CurrentRoots(), address, access), rand)
    {
      hide Walk, VDRefill, VDRam, TlbFill, InvalidatePageAsidOrG, FlagHuge, Root, Vppn;
      var saved := (istlbr, tlbrbadv, tlbrVppn, tlbrPs, tlbrelo0, tlbrelo1);
      PrepareRefill(address, access, setVD);
      if setVD {
        InvtlbPageAsidOrG(asid, address);
      }
      FillRandom(rand);
      istlbr, tlbrbadv, tlbrVppn := saved.0, saved.1, saved.2;
      tlbrPs, tlbrelo0, tlbrelo1 := saved.3, saved.4, saved.5;
    }

    /** loongarch_map_address: at most two passes of search and access check with a refill between. */
    method Translate(address: Word, access: Access, plv: nat, hwPtw: bool, setVD: bool, rand: nat) returns (ret: Ret)
      requires Valid() && !FlagHuge(Root(CurrentRoots(), address))
      modifies tlb, this`istlbr, this`tlbrbadv, this`tlbrVppn, this`tlbrPs, this`tlbrelo0, this`tlbrelo1, this`ram
      ensures Valid()
      ensures istlbr == old(istlbr) && tlbrbadv == old(tlbrbadv) && tlbrVppn == old(tlbrVppn) && tlbrPs == old(tlbrPs)
      ensures tlbrelo0 == old(tlbrelo0) && tlbrelo1 == old(tlbrelo1)
      ensures !hwPtw ==>
                && ram == old(ram) && tlb[..] == old(tlb[..])
                && ret == MapFound(P(), old(tlb[..]), SearchIn(P(), old(tlb[..]), asid, address), address, access, plv)
      ensures hwPtw && !setVD ==>
                && ram == old(ram)
                && Translated(ret, tlb[..]) == MapAddress(P(), Qwords(old(ram)), CurrentRoots(), old(tlb[..]), asid,
                                                          address, access, plv, rand)
      ensures hwPtw && setVD ==>
                var first := FirstPass(P(), old(tlb[..]), asid, address, access, plv);
                if first.Some? && first.value != NeedsSetD then ret == first.value && tlb[..] == old(tlb[..]) && ram == old(ram)
                else
                  var s := SecondPass(P(), Qwords(old(ram)), CurrentRoots(), old(tlb[..]), asid, address, access, plv, rand);
                  && tlb[..] == s.tlb && ram == VDRam(P(), old(ram), CurrentRoots(), address, access)
                  && ret == if s.ret == NeedsSetD then NoMatch else s.ret
      ensures ret == NoMatch || Answered(P(), tlb[..], asid, address, access, plv, hwPtw && setVD, ret)
    {
      hide Search, MapPair, Walk, TlbFill, InvalidatePageAsidOrG, VDRefill, VDRam, FlagHuge, Root, Hits, Answered;
      var vd := hwPtw && setVD;
      SearchResult(P(), tlb[..], asid, address);
      var found, multi := TlbSearch(address, false);
      if found.At? {
        HitHasSize(P(), found.index, tlb[found.index], asid, address);
        var t := tlb[found.index];
        ret := MapPair(t.lo0, t.lo1, EntryPs(P(), found.index, t), address, access, plv, vd);
        NoVDNoRequest(t.lo0, t.lo1, EntryPs(P(), found.index, t), address, access, plv);
        AnswersByBits(P(), tlb[..], found.index, asid, address, access, plv, vd);
        if ret != NeedsSetD {
          return;
        }
      }
      if !hwPtw {
        return NoMatch;
      }
      WalkAndFill(address, access, setVD, rand);
      SearchResult(P(), tlb[..], asid, address);
      found, multi := TlbSearch(address, false);
      if found.At? {
        HitHasSize(P(), found.index, tlb[found.index], asid, address);
        var t := tlb[found.index];
        ret := MapPair(t.lo0, t.lo1, EntryPs(P(), found.index, t), address, access, plv, vd);
        NoVDNoRequest(t.lo0, t.lo1, EntryPs(P(), found.index, t), address, access, plv);
        AnswersByBits(P(), tlb[..], found.index, asid, address, access, plv, vd);
        if ret != NeedsSetD {
          return;
        }
      }
      return NoMatch;
    }
  }
}
