/**
 What the registers of the UART mean: which interrupt is reported, by rank, and what the bits of the values read say.
 */
module SerialLaws {
  import opened Fifo
  import opened Serial

  // ---- Interrupt priority ----------------------------------------------------------------------

  /** A source asks for the interrupt when its enable bit is set and its condition holds. */
  predicate Asks(l: Line, s: Source) {
    match s
    case LineStatus => l.ier & 0x04 != 0 && l.rx.overrun
    case Timeout => l.ier & 0x01 != 0 && l.rx.timeout
    case DataReady => l.ier & 0x01 != 0 && l.rx.held != [] && (!l.rx.fifo || |l.rx.held| >= l.rx.itl)
    case HoldingEmpty => l.ier & 0x02 != 0 && l.thrPending
    case ModemStatus => l.ier & 0x08 != 0 && l.msr & 0x0f != 0
    case Nothing => false
  }

  /** The 16550A order: line status, received data (the timeout first), empty holding register, modem status. */
  function Rank(s: Source): nat {
    match s
    case LineStatus => 5
    case Timeout => 4
    case DataReady => 3
    case HoldingEmpty => 2
    case ModemStatus => 1
    case Nothing => 0
  }

  /** The low nibble of the identification register for each source. */
  function Number(s: Source): Octet {
    match s
    case LineStatus => 0x06
    case Timeout => 0x0c
    case DataReady => 0x04
    case HoldingEmpty => 0x02
    case ModemStatus => 0x00
    case Nothing => 0x01
  }

  /** s asks and nothing that asks ranks higher; or s is Nothing and nothing asks. */
  ghost predicate Foremost(l: Line, s: Source) {
    (s == Nothing || Asks(l, s)) && forall t :: Asks(l, t) ==> Rank(t) <= Rank(s)
  }

  /** The interrupt line and the identification register report the foremost source, and the FIFO mode. */
  ghost predicate Reported(l: Line, iir: Octet, irq: bool) {
    && (forall s :: Foremost(l, s) ==> iir == Number(s) | (if l.rx.fifo then 0xc0 else 0x00))
    && (irq <==> exists s :: Asks(l, s))
  }

  /** There is exactly one foremost source, and it is the one reported. */
  lemma CauseIsForemost(l: Line, s: Source)
    ensures Foremost(l, s) <==> s == LineCause(l)
  {
    var c := LineCause(l);
    assert (c == Nothing || Asks(l, c)) && forall t :: Asks(l, t) ==> Rank(t) <= Rank(c);
    RankDistinct(s, c);
  }

  lemma RankDistinct(s: Source, t: Source)
    ensures Rank(s) == Rank(t) <==> s == t
  {
  }

  lemma CodeIsNumber(s: Source, fifo: bool)
    ensures CauseBits(s, fifo) == Number(s) | if fifo then 0xc0 else 0x00
  {
  }

  /** What is settled on the line's cause reports its foremost source. */
  lemma CauseReported(l: Line)
    ensures Reported(l, CauseBits(LineCause(l), l.rx.fifo), LineCause(l) != Nothing)
    ensures LineValue(l, 2) == CauseBits(LineCause(l), l.rx.fifo)
  {
    hide CauseBits, LineCause, Asks, Number, Rank;
    var c := LineCause(l);
    CauseIsForemost(l, c);
    CodeIsNumber(c, l.rx.fifo);
    forall s | Foremost(l, s)
      ensures s == c
    {
      CauseIsForemost(l, s);
    }
    forall s | Asks(l, s)
      ensures c != Nothing
    {
      NothingAsks(l);
      RankDistinct(s, c);
      NothingRanksLast(s);
    }
  }

  lemma NothingRanksLast(s: Source)
    ensures Rank(Nothing) <= Rank(s)
  {
  }

  lemma NothingAsks(l: Line)
    ensures !Asks(l, Nothing)
  {
  }

  // ---- Values read, bit by bit ---------------------------------------------------------------------

  /** Line status: data ready, overrun, an idle transmitter, and nothing else. */
  lemma StatusMeans(l: Line)
    ensures var v := LineValue(l, 5);
            && (v & 0x01 != 0 <==> l.rx.held != []) && (v & 0x02 != 0 <==> l.rx.overrun)
            && v & 0x60 == 0x60 && v & 0x9c == 0
  {
  }

  /** In loopback, OUT2, OUT1, RTS and DTR are read back as DCD, RI, CTS and DSR, without changes. */
  lemma LoopbackMeans(l: Line)
    requires l.Loop()
    ensures var v, mcr := LineValue(l, 6), l.regs.mcr;
            && (v & 0x80 != 0 <==> mcr & 0x08 != 0) && (v & 0x40 != 0 <==> mcr & 0x04 != 0)
            && (v & 0x20 != 0 <==> mcr & 0x01 != 0) && (v & 0x10 != 0 <==> mcr & 0x02 != 0)
            && v & 0x0f == 0
  {
  }

  /** Polling the modem finds all four lines off; lines that were on have changed, but a ring counts only when it ends. */
  lemma PolledMeans(msr: Octet)
    ensures var v := Polled(msr);
            && v & 0xf0 == 0
            && (v & 0x01 != 0 <==> msr & 0x11 != 0) && (v & 0x02 != 0 <==> msr & 0x22 != 0) && (v & 0x08 != 0 <==> msr & 0x88 != 0)
            && (v & 0x04 != 0 <==> if msr & 0xf0 == 0 then msr & 0x04 != 0 else msr & 0x40 != 0)
  {
  }

  /** Reading the modem status takes all changes back; in loopback it takes none. */
  lemma ModemReadClears(l: Line)
    ensures LineRead(l, 6).msr == if l.Loop() then l.msr else 0
  {
    if !l.Loop() { PolledMeans(l.msr); }
  }

  /** What can be read back of what was written. */
  lemma ReadBack(l: Line, val: bv16, byteSized: bool)
    ensures LineValue(LineWrite(l, 3, val, byteSized), 3) == LowByte(val) && LineValue(LineWrite(l, 7, val, byteSized), 7) == LowByte(val)
    ensures LineValue(LineWrite(l, 4, val, byteSized), 4) == LowByte(val) & 0x1f
    ensures !l.Dlab() ==> LineValue(LineWrite(l, 1, val, byteSized), 1) == LowByte(val) & 0x0f
  {
    hide LowByte, On, Polled;
  }

  /** The two high bits of FCR choose how many bytes make the receiver ask: 1, 4, 8 or 14. */
  lemma TriggerLevels(l: Line, val: bv16, n: nat)
    requires On(LowByte(val), 0x01) && l.rx.fifo && !On(LowByte(val), 0x02) && l.ier & 0x01 != 0
    requires n == if LowByte(val) & 0x80 == 0 then (if LowByte(val) & 0x40 == 0 then 1 else 4) else if LowByte(val) & 0x40 == 0 then 8 else 14
    ensures Asks(LineWrite(l, 2, val, true), DataReady) <==> |l.rx.held| >= n
  {
    LevelBits(LowByte(val));
    hide LowByte, On, Itl;
  }

  lemma LevelBits(v: Octet)
    ensures Itl(v) == if v & 0x80 == 0 then (if v & 0x40 == 0 then 1 else 4) else if v & 0x40 == 0 then 8 else 14
  {
  }

  /** With DLAB set the divisor is written and read back a byte at a time. */
  lemma DividerRoundTrip(l: Line, low: bv16, high: bv16)
    requires l.Dlab() && low & 0xff00 == 0 && high & 0xff00 == 0
    ensures var m := LineWrite(LineWrite(l, 0, low, true), 1, high, true);
            LineValue(m, 0) == LowByte(low) && LineValue(m, 1) == LowByte(high)
  {
    hide On, LowByte, HighByte, DividerBits;
    BytesReadBack(l.regs.divider, low, high);
  }

  lemma BytesReadBack(d: bv16, low: bv16, high: bv16)
    requires low & 0xff00 == 0 && high & 0xff00 == 0
    ensures var m := DividerBits(DividerBits(d, false, low, true), true, high, true);
            LowByte(m) == LowByte(low) && HighByte(m) == LowByte(high)
  {
    hide LowByte, DividerBits;
    DividerBytes(d, low, high);
    var m := DividerBits(DividerBits(d, false, low, true), true, high, true);
    SameLowByte(m, low);
    SameLowByte(m >> 8, high);
  }

  lemma DividerBytes(d: bv16, low: bv16, high: bv16)
    requires low & 0xff00 == 0 && high & 0xff00 == 0
    ensures var m := DividerBits(DividerBits(d, false, low, true), true, high, true);
            m & 0xff == low & 0xff && (m >> 8) & 0xff == high & 0xff
  {
  }

  lemma SameLowByte(x: bv16, y: bv16)
    requires x & 0xff == y & 0xff
    ensures LowByte(x) == LowByte(y)
  {
  }
}
