/**
 What a leaf word says, read bit by bit: who may do what through it, and which address it gives.  The access check of the
 TLB, with its fields and its order of tests, is shown to be this.
 */
module Rights {
  import opened Words
  import opened PageWalk
  import opened Tlb

  predicate Bit(w: nat, k: nat) { w / Pow2(k) % 2 == 1 }

  /** Bits 3..2, the privilege level of the page; with bit 63 it must be met exactly, else it is a limit. */
  predicate Admits(w: Word, plv: nat) {
    var level := (if Bit(w, 3) then 2 else 0) + if Bit(w, 2) then 1 else 0;
    if Bit(w, 63) then plv == level else plv <= level
  }

  predicate Permits(w: Word, access: Access, plv: nat) {
    && Bit(w, 0) && Admits(w, plv)
    && (access.Fetch? ==> !Bit(w, 62)) && (access.Load? ==> !Bit(w, 61)) && (access.Store? ==> Bit(w, 1))
  }

  /** Everything that speaks against the access, most important first. */
  function Objections(w: Word, access: Access, plv: nat): seq<Ret> {
    (if Bit(w, 0) then [] else [Invalid])
    + (if access.Fetch? && Bit(w, 62) then [FetchInhibited] else [])
    + (if access.Load? && Bit(w, 61) then [ReadInhibited] else [])
    + (if Admits(w, plv) then [] else [Privilege])
    + (if access.Store? && !Bit(w, 1) then [Dirty] else [])
  }

  function Checked(w: Word, access: Access, plv: nat, phys: nat): Ret {
    var against := Objections(w, access, plv);
    if against == [] then Match(phys, Bit(w, 1), !Bit(w, 62)) else against[0]
  }

  /** Bits 47..ps of the word, then the offset in the page. */
  function PageAddress(w: Word, ps: nat, a: Word): nat { Multiple(w % TWO48, Pow2(ps)) + a % Pow2(ps) }

  /** The largest multiple of m up to x. */
  function Multiple(x: nat, m: int): nat
    requires m > 0
  {
    MulMono(0, x / m, m);
    x / m * m
  }

  lemma PermitsIff(w: Word, access: Access, plv: nat, phys: nat)
    ensures Checked(w, access, plv, phys).Match? <==> Permits(w, access, plv)
  {
    hide Bit, Admits;
  }

  // ---- Fields are bits ----------------------------------------------------------------------

  lemma LowFieldBits(w: Word)
    ensures FlagV(w) == Bit(w, 0) && FlagD(w) == Bit(w, 1) && FlagP(w) == Bit(w, 7) && FlagW(w) == Bit(w, 8)
    ensures FlagG(w) == Bit(w, 6) && FlagHuge(w) == Bit(w, 6)
  {
    hide Pow2;
    LowPowers();
  }

  lemma HighFieldBits(w: Word)
    ensures FlagNR(w) == Bit(w, 61) && FlagNX(w) == Bit(w, 62) && FlagRplv(w) == Bit(w, 63)
  {
    hide Pow2;
    Pow2Values();
    assert w / TWO63 <= 1;
  }

  lemma LevelFieldBits(w: Word)
    ensures Plv(w) == (if Bit(w, 3) then 2 else 0) + if Bit(w, 2) then 1 else 0
  {
    hide Pow2;
    LowPowers();
    DivDiv(w, 4, 2);
    TwoBitNumber(w / 4);
  }

  lemma TwoBitNumber(x: nat)
    ensures x % 4 == x / 2 % 2 * 2 + x % 2
  {
  }

  lemma LowPowers()
    ensures Pow2(0) == 1 && Pow2(1) == 2 && Pow2(2) == 4 && Pow2(3) == 8 && Pow2(6) == 64 && Pow2(7) == 128 && Pow2(8) == 256
  {
  }

  lemma ParityBit(a: Word, ps: nat)
    ensures OddPage(a, ps) == Bit(a, ps)
  {
    ShrDiv(a, ps);
  }

  /** The order of the tests is the order of the objections. */
  lemma DecideChecks(w: Word, access: Access, plv: nat, setVD: bool, phys: nat)
    ensures Decide(w, access, plv, setVD, phys)
         == if setVD && access.Store? && Bit(w, 8) && !Bit(w, 1) then NeedsSetD else Checked(w, access, plv, phys)
  {
    LowFieldBits(w);
    HighFieldBits(w);
    LevelFieldBits(w);
    hide Bit, FlagV, FlagD, FlagW, FlagNR, FlagNX, FlagRplv, Plv;
  }

  // ---- Addresses ------------------------------------------------------------------------------

  lemma FrameIsNumberTimesSize(w: Word, ps: nat)
    requires ps >= 12
    ensures Frame(w, ps) == Multiple(w % TWO48, Pow2(ps))
  {
    hide Shr, Low, Pow2, Ppn;
    FrameNumber(w);
    assert Pow2(ps) == 0x1000 * Pow2(ps - 12) by {
      Pow2Add(12, ps - 12);
      Pow2Values();
    }
    LowMod(Ppn(w), ps - 12);
    FrameProduct(w % TWO48, Ppn(w), Pow2(ps - 12));
  }

  lemma FrameProduct(x: nat, n: nat, m: int)
    requires m > 0 && n == x / 0x1000
    ensures (n - n % m) * 0x1000 == Multiple(x, 0x1000 * m)
  {
    DivDiv(x, 0x1000, m);
    var q := n / m;
    assert n - n % m == q * m;
    MulAssoc(q, m, 0x1000);
    assert m * 0x1000 == 0x1000 * m;
  }

  lemma FrameNumber(w: Word)
    ensures Ppn(w) == w % TWO48 / 0x1000
  {
  }

  lemma AddressIsSum(w: Word, ps: nat, a: Word)
    requires ps >= 12
    ensures BitOr(Frame(w, ps), Low(a, ps)) == PageAddress(w, ps, a)
  {
    hide Low, BitOr, Frame, Pow2;
    FrameIsNumberTimesSize(w, ps);
    LowMod(a, ps);
    var n := w % TWO48 / Pow2(ps);
    MulMono(0, n, Pow2(ps));
    DivAddMul(0, Pow2(ps), n);
    OrDisjoint(n * Pow2(ps), a % Pow2(ps), ps);
  }

  /** The half of a pair that the address bit above the offset picks, checked and added to. */
  function PairVerdict(lo0: Word, lo1: Word, ps: nat, a: Word, access: Access, plv: nat, setVD: bool): Ret {
    var w := if Bit(a, ps) then lo1 else lo0;
    if setVD && access.Store? && Bit(w, 8) && !Bit(w, 1) then NeedsSetD
    else Checked(w, access, plv, PageAddress(w, ps, a))
  }

  /** loongarch_map_tlb_entry decides every access by these bits. */
  lemma MapPairChecks(lo0: Word, lo1: Word, ps: nat, a: Word, access: Access, plv: nat, setVD: bool)
    requires ps >= 12
    ensures MapPair(lo0, lo1, ps, a, access, plv, setVD) == PairVerdict(lo0, lo1, ps, a, access, plv, setVD)
  {
    hide Bit, Decide, BitOr, Frame, Low, OddPage, PageAddress, Checked;
    ParityBit(a, ps);
    var w := if Bit(a, ps) then lo1 else lo0;
    AddressIsSum(w, ps, a);
    DecideChecks(w, access, plv, setVD, PageAddress(w, ps, a));
  }
}
