/**
 Which addresses a TLB serves transparently.  An entry filled for one address answers for every
 address of the same page pair below bit 48, whatever its bits above.  A set of addresses is served
 as the page tables say, over every run, exactly when no two of its members disagree on such a pair.
 */
module Sharing {
  import opened Words
  import opened PageWalk
  import opened Tlb
  import opened TlbRuns

  /** The refill goes into the TLB. */
  predicate Fillable(w: World, r: Refill) { CheckPs(w.p.prcfg2, r.ps) && CheckPs(w.p.prcfg2, w.p.stlbPs) }

  /** The entry filled for a in address space s answers for b in address space t. */
  predicate Answers(w: World, mem: Memory, s: nat, a: Word, t: nat, b: Word) {
    var r := WalkIn(w, mem, s, a);
    Fillable(w, r) && (s == t || Global(r)) && PairNumber(a, r.ps) == PairNumber(b, r.ps)
  }

  /** What it answers. */
  function Answer(w: World, mem: Memory, s: nat, a: Word, b: Word, access: Access, plv: nat): Ret {
    var r := WalkIn(w, mem, s, a);
    if r.ps >= 12 then MapPair(r.lo0, r.lo1, r.ps, b, access, plv, false) else NoMatch
  }

  ghost predicate AnswersRight(w: World, mem: Memory, s: nat, a: Word, t: nat, b: Word) {
    forall access: Access, plv: nat ::
      Answer(w, mem, s, a, b, access, plv) == WalkTranslate(w, mem, t, b, access, plv)
  }

  /** No member of the set answers wrongly for another: a condition on page tables and addresses alone. */
  ghost predicate PairsAgree(w: World, mem: Memory, A: Word -> bool) {
    forall s: nat, a: Word, t: nat, b: Word ::
      s < ASIDS && t < ASIDS && A(a) && A(b) && Answers(w, mem, s, a, t, b) ==> AnswersRight(w, mem, s, a, t, b)
  }

  // ---- Runs over a set of addresses -----------------------------------------------------------

  /** Translations of members, context switches and invalidations; the page tables stay. */
  predicate StepOver(A: Word -> bool, step: Step) {
    match step
    case Translate(a, _, _, _) => A(a)
    case SwitchAsid(s) => s < ASIDS
    case RemapAll(_) => false
    case RemapPage(_, _) => false
    case _ => true
  }

  ghost predicate RunOver(A: Word -> bool, steps: seq<Step>) {
    forall i :: 0 <= i < |steps| ==> StepOver(A, steps[i])
  }

  /** From an empty TLB, every run over the set returns what walking every time returns. */
  ghost predicate TransparentOver(w: World, mem: Memory, A: Word -> bool) {
    forall tlb: seq<Entry>, asid: nat, steps: seq<Step> ::
      Empty(tlb) && asid < ASIDS && RunOver(A, steps) ==> Run(w, State(tlb, asid, mem), steps) == WalkRun(w, mem, asid, steps)
  }

  // ---- Agreement is enough ------------------------------------------------------------------------

  /** The entry is what a fill for a member left. */
  ghost predicate FilledFor(w: World, mem: Memory, i: nat, t: Entry, a: Word) {
    var r := WalkIn(w, mem, t.asid, a);
    && t.asid < ASIDS && Fillable(w, r) && t.g == Global(r) && t.lo0 == r.lo0 && t.lo1 == r.lo1
    && EntryPs(w.p, i, t) == r.ps && t.vppn == Vppn(a)
  }

  ghost predicate Member(w: World, mem: Memory, A: Word -> bool, i: nat, t: Entry) {
    t.e ==> exists a: Word :: A(a) && FilledFor(w, mem, i, t, a)
  }

  ghost predicate Members(w: World, mem: Memory, A: Word -> bool, tlb: seq<Entry>) {
    IsTable(tlb) && forall i: nat :: i < |tlb| ==> Member(w, mem, A, i, tlb[i])
  }

  /** A hit on such an entry is an answer, and so it is right. */
  lemma HitIsRight(w: World, mem: Memory, A: Word -> bool, tlb: seq<Entry>, i: nat, asid: nat, b: Word, access: Access, plv: nat)
    requires SaneSizes(w.p.prcfg2) && PairsAgree(w, mem, A) && Members(w, mem, A, tlb)
    requires asid < ASIDS && A(b) && i < TLB_MAX && Hits(w.p, i, tlb[i], asid, b)
    ensures MapFound(w.p, tlb, At(i), b, access, plv) == WalkTranslate(w, mem, asid, b, access, plv)
  {
    hide WalkIn, WalkTranslate, CheckPs, MapPair, Vppn, PairNumber, Shr, Global, AnswersRight;
    var t := tlb[i];
    assert Member(w, mem, A, i, t);
    var a: Word :| A(a) && FilledFor(w, mem, i, t, a);
    var r := WalkIn(w, mem, t.asid, a);
    TagOfAddress(a, r.ps);
    assert Answers(w, mem, t.asid, a, asid, b);
    assert AnswersRight(w, mem, t.asid, a, asid, b);
    RightAnswer(w, mem, t.asid, a, asid, b, access, plv);
  }

  lemma RightAnswer(w: World, mem: Memory, s: nat, a: Word, t: nat, b: Word, access: Access, plv: nat)
    requires AnswersRight(w, mem, s, a, t, b)
    ensures Answer(w, mem, s, a, b, access, plv) == WalkTranslate(w, mem, t, b, access, plv)
  {
  }

  lemma FillKeepsMembers(w: World, mem: Memory, A: Word -> bool, tlb: seq<Entry>, asid: nat, b: Word, rand: nat)
    requires Members(w, mem, A, tlb) && asid < ASIDS && A(b)
    ensures Members(w, mem, A, TlbFill(w.p, tlb, asid, EntryHi(b), WalkIn(w, mem, asid, b), rand))
  {
    hide WalkIn, CheckPs, FlagG, Shr, Low, Victim;
    var r := WalkIn(w, mem, asid, b);
    var filled := TlbFill(w.p, tlb, asid, EntryHi(b), r, rand);
    if Fillable(w, r) {
      var i := Victim(w.p, EntryHi(b), r.ps, rand);
      VictimPlace(w.p, EntryHi(b), r.ps, rand);
      assert Vppn(EntryHi(b)) == Vppn(b);
      assert FilledFor(w, mem, i, filled[i], b);
      assert forall j: nat :: j < |tlb| && j != i ==> filled[j] == tlb[j];
    }
  }

  lemma ClearKeepsMembers(w: World, mem: Memory, A: Word -> bool, tlb: seq<Entry>, tlb': seq<Entry>)
    requires Members(w, mem, A, tlb) && OnlyClears(tlb, tlb')
    ensures Members(w, mem, A, tlb')
  {
    hide FilledFor;
    forall i: nat | i < |tlb'|
      ensures Member(w, mem, A, i, tlb'[i])
    {
      assert Member(w, mem, A, i, tlb[i]);
    }
  }

  lemma TranslateOver(w: World, mem: Memory, A: Word -> bool, tlb: seq<Entry>, asid: nat, b: Word, access: Access, plv: nat, rand: nat)
    requires SaneSizes(w.p.prcfg2) && PairsAgree(w, mem, A) && Members(w, mem, A, tlb) && asid < ASIDS && A(b)
    ensures var t := MapAddress(w.p, mem, w.roots(asid), tlb, asid, b, access, plv, rand);
            t.ret == WalkTranslate(w, mem, asid, b, access, plv) && Members(w, mem, A, t.tlb)
  {
    hide Search, Hits, CheckPs, Walk, MapPair, Members, PairsAgree, MapFound, Victim;
    assert IsTable(tlb) by { MembersTable(w, mem, A, tlb); }
    SearchResult(w.p, tlb, asid, b);
    var found := Search(w.p, tlb, asid, b);
    if found.At? {
      HitIsRight(w, mem, A, tlb, found.index, asid, b, access, plv);
    } else {
      var r := WalkIn(w, mem, asid, b);
      var filled := TlbFill(w.p, tlb, asid, EntryHi(b), r, rand);
      FillKeepsMembers(w, mem, A, tlb, asid, b, rand);
      SearchResult(w.p, filled, asid, b);
      if Fillable(w, r) {
        FreshHits(w.p, tlb[Victim(w.p, EntryHi(b), r.ps, rand)], b, asid, r, rand);
        assert Vppn(EntryHi(b)) == Vppn(b);
        HitIsRight(w, mem, A, filled, Search(w.p, filled, asid, b).index, asid, b, access, plv);
      } else {
        MissIsNoMatch(w.p, tlb, b, access, plv);
      }
    }
  }

  lemma MembersTable(w: World, mem: Memory, A: Word -> bool, tlb: seq<Entry>)
    requires Members(w, mem, A, tlb)
    ensures IsTable(tlb)
  {
  }

  lemma {:induction false} RunsOver(w: World, mem: Memory, A: Word -> bool, s: State, steps: seq<Step>)
    requires SaneSizes(w.p.prcfg2) && PairsAgree(w, mem, A) && Members(w, mem, A, s.tlb)
    requires s.mem == mem && s.asid < ASIDS && RunOver(A, steps)
    ensures Run(w, s, steps) == WalkRun(w, mem, s.asid, steps)
    decreases |steps|
  {
    hide SaneSizes, PairsAgree, Members, WalkTranslate, MapAddress, Walk, FlagG, Covers;
    MembersTable(w, mem, A, s.tlb);
    if steps != [] {
      var step := steps[0];
      assert StepOver(A, step);
      assert Members(w, mem, A, NextTlb(w, s, step)) && (step.Translate? ==> Output(w, s, step) == [WalkTranslate(w, mem, s.asid, step.a, step.access, step.plv)]) by {
        StepKeepsMembers(w, mem, A, s, step);
      }
      RunsOver(w, mem, A, Next(w, s, step), steps[1..]);
    }
  }

  lemma StepKeepsMembers(w: World, mem: Memory, A: Word -> bool, s: State, step: Step)
    requires SaneSizes(w.p.prcfg2) && PairsAgree(w, mem, A) && Members(w, mem, A, s.tlb)
    requires IsTable(s.tlb) && s.mem == mem && s.asid < ASIDS && StepOver(A, step)
    ensures Members(w, mem, A, NextTlb(w, s, step))
    ensures step.Translate? ==> Output(w, s, step) == [WalkTranslate(w, mem, s.asid, step.a, step.access, step.plv)]
  {
    hide SaneSizes, PairsAgree, Members, WalkTranslate, MapAddress, FlagG, Covers;
    if step.Translate? {
      TranslateOver(w, mem, A, s.tlb, s.asid, step.a, step.access, step.plv, step.rand);
    } else if !step.SwitchAsid? {
      ClearKeepsMembers(w, mem, A, s.tlb, NextTlb(w, s, step));
    }
  }

  // ---- Agreement is needed -----------------------------------------------------------------------------

  lemma SetOfPair(p: Params, a: Word, b: Word)
    requires PairNumber(a, p.stlbPs) == PairNumber(b, p.stlbPs)
    ensures SetIndex(p, a) == SetIndex(p, b)
  {
  }

  /** From an empty TLB, an address of the pair just filled, in a space it answers for, gets the answer. */
  lemma PairSharesOneEntry(w: World, mem: Memory, tlb: seq<Entry>, s: nat, a: Word, t: nat, b: Word,
                           access: Access, plv: nat, rand: nat, rand': nat)
    requires SaneSizes(w.p.prcfg2) && Empty(tlb) && Answers(w, mem, s, a, t, b)
    ensures var first := MapAddress(w.p, mem, w.roots(s), tlb, s, a, access, plv, rand);
            var second := MapAddress(w.p, mem, w.roots(t), first.tlb, t, b, access, plv, rand');
            second.ret == Answer(w, mem, s, a, b, access, plv)
  {
    hide Search, CheckPs, Walk, MapPair, Victim, Shr, Low, FlagG, Vppn, PairNumber, SetIndex;
    var r := WalkIn(w, mem, s, a);
    SearchResult(w.p, tlb, s, a);
    assert Search(w.p, tlb, s, a).Miss? by { assert forall i: nat :: i < TLB_MAX ==> !Hits(w.p, i, tlb[i], s, a); }
    var i := Victim(w.p, EntryHi(a), r.ps, rand);
    var filled := TlbFill(w.p, tlb, s, EntryHi(a), r, rand);
    assert Vppn(EntryHi(a)) == Vppn(a) by { TagKept(a); }
    FreshHits(w.p, tlb[i], a, s, r, rand);
    TagOfAddress(a, r.ps);
    assert Hits(w.p, i, filled[i], t, b);
    assert Looked(w.p, b, i) by {
      VictimPlace(w.p, EntryHi(a), r.ps, rand);
      if i < STLB { SetOfPair(w.p, a, b); }
    }
    SearchResult(w.p, filled, t, b);
    assert forall j: nat :: j < TLB_MAX && j != i ==> filled[j] == tlb[j];
    assert Search(w.p, filled, t, b) == At(i);
  }

  /** A wrong answer shows in a run of two translations. */
  lemma WrongAnswerShows(w: World, mem: Memory, A: Word -> bool, s: nat, a: Word, t: nat, b: Word, access: Access, plv: nat)
    requires SaneSizes(w.p.prcfg2) && s < ASIDS && t < ASIDS && A(a) && A(b) && Answers(w, mem, s, a, t, b)
    requires Answer(w, mem, s, a, b, access, plv) != WalkTranslate(w, mem, t, b, access, plv)
    ensures !TransparentOver(w, mem, A)
  {
    hide MapAddress, WalkTranslate, CheckPs, Walk, Answers, Answer, SaneSizes;
    var tlb: seq<Entry> := seq(TLB_MAX, _ => Entry(false, 0, false, 0, 0, 0, 0));
    var one, two, three := Translate(a, access, plv, 0), SwitchAsid(t), Translate(b, access, plv, 0);
    var steps := [one, two, three];
    PairSharesOneEntry(w, mem, tlb, s, a, t, b, access, plv, 0, 0);
    var first := MapAddress(w.p, mem, w.roots(s), tlb, s, a, access, plv, 0);
    var second := MapAddress(w.p, mem, w.roots(t), first.tlb, t, b, access, plv, 0);
    var x1, y1 := WalkTranslate(w, mem, s, a, access, plv), WalkTranslate(w, mem, t, b, access, plv);
    assert steps[1..] == [two, three] && [two, three][1..] == [three] && [three][1..] == [];
    assert Run(w, State(first.tlb, t, mem), [three]) == [second.ret] + Run(w, State(second.tlb, t, mem), []);
    assert Run(w, State(first.tlb, s, mem), [two, three]) == [] + Run(w, State(first.tlb, t, mem), [three]);
    assert Run(w, State(tlb, s, mem), steps) == [first.ret] + Run(w, State(first.tlb, s, mem), [two, three]);
    assert WalkRun(w, mem, t, [three]) == [y1] + WalkRun(w, mem, t, []);
    assert WalkRun(w, mem, s, [two, three]) == [] + WalkRun(w, mem, t, [three]);
    assert WalkRun(w, mem, s, steps) == [x1] + WalkRun(w, mem, s, [two, three]);
    assert Run(w, State(tlb, s, mem), steps)[1] != WalkRun(w, mem, s, steps)[1];
    assert Empty(tlb) && RunOver(A, steps);
  }

  /** A set of addresses is served transparently, over every run, in all address spaces and for all victims, if and
      only if its pairs agree. */
  lemma TransparentIff(w: World, mem: Memory, A: Word -> bool)
    requires SaneSizes(w.p.prcfg2)
    ensures TransparentOver(w, mem, A) <==> PairsAgree(w, mem, A)
  {
    hide Answers, WalkRun, Run, WalkTranslate, Answer, SaneSizes;
    if PairsAgree(w, mem, A) {
      forall tlb: seq<Entry>, asid: nat, steps: seq<Step> | Empty(tlb) && asid < ASIDS && RunOver(A, steps)
        ensures Run(w, State(tlb, asid, mem), steps) == WalkRun(w, mem, asid, steps)
      {
        RunsOver(w, mem, A, State(tlb, asid, mem), steps);
      }
    } else {
      var s: nat, a: Word, t: nat, b: Word :| s < ASIDS && t < ASIDS && A(a) && A(b)
        && Answers(w, mem, s, a, t, b) && !AnswersRight(w, mem, s, a, t, b);
      var access: Access, plv: nat :| Answer(w, mem, s, a, b, access, plv) != WalkTranslate(w, mem, t, b, access, plv);
      WrongAnswerShows(w, mem, A, s, a, t, b, access, plv);
    }
  }

  /** Canonical addresses agree on good tables. */
  lemma CanonicalAgree(w: World, mem: Memory)
    requires GoodWorld(w) && GoodTables(w, mem)
    ensures PairsAgree(w, mem, (a: Word) => Canonical(a))
  {
    hide Walk, CheckPs, Canonical, MapPair, PairNumber, Global, CleanTables, Ordered;
    forall s: nat, a: Word, t: nat, b: Word | s < ASIDS && t < ASIDS && Canonical(a) && Canonical(b) && Answers(w, mem, s, a, t, b)
      ensures AnswersRight(w, mem, s, a, t, b)
    {
      WalkAgree(w.p.walk, mem, w.roots(s), a, b);
      assert WalkIn(w, mem, t, b) == WalkIn(w, mem, s, b);
    }
  }
}
