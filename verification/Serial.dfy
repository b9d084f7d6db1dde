/**
 The 16550A UART: registers and FIFOs as the emulator overwrites them, against a line, which
 is two byte queues and the registers and flags that a guest can tell apart.
 */
module Serial {
  import opened Fifo

  const DLAB: Octet := 0x80
  const IER_MSI: Octet := 0x08
  const IER_RLSI: Octet := 0x04
  const IER_THRI: Octet := 0x02
  const IER_RDI: Octet := 0x01
  const IIR_NO_INT: Octet := 0x01
  const IIR_ID: Octet := 0x06
  const IIR_MSI: Octet := 0x00
  const IIR_THRI: Octet := 0x02
  const IIR_RDI: Octet := 0x04
  const IIR_RLSI: Octet := 0x06
  const IIR_CTI: Octet := 0x0c
  const IIR_FE: Octet := 0xc0
  const MCR_LOOP: Octet := 0x10
  const MCR_OUT2: Octet := 0x08
  const MSR_DCD: Octet := 0x80
  const MSR_RI: Octet := 0x40
  const MSR_DSR: Octet := 0x20
  const MSR_CTS: Octet := 0x10
  const MSR_TERI: Octet := 0x04
  const MSR_ANY_DELTA: Octet := 0x0f
  const LSR_TEMT: Octet := 0x40
  const LSR_THRE: Octet := 0x20
  const LSR_BI: Octet := 0x10
  const LSR_OE: Octet := 0x02
  const LSR_DR: Octet := 0x01
  const LSR_ERRORS: Octet := 0x12
  const LSR_INT_ANY: Octet := 0x1e
  const FCR_XFR: Octet := 0x04
  const FCR_RFR: Octet := 0x02
  const FCR_FE: Octet := 0x01
  const FIFO_LENGTH: nat := 16

  predicate On(reg: Octet, mask: Octet) { reg & mask != 0 }

  datatype Source = LineStatus | Timeout | DataReady | HoldingEmpty | ModemStatus | Nothing

  /** The prioritised interrupt cause; `full` says that the receiver holds enough to report. */
  function CauseOf(ier: Octet, lsr: Octet, msr: Octet, timeout: bool, thrPending: bool, full: bool): Source {
    if On(ier, IER_RLSI) && On(lsr, LSR_INT_ANY) then LineStatus
    else if On(ier, IER_RDI) && timeout then Timeout
    else if On(ier, IER_RDI) && On(lsr, LSR_DR) && full then DataReady
    else if On(ier, IER_THRI) && thrPending then HoldingEmpty
    else if On(ier, IER_MSI) && On(msr, MSR_ANY_DELTA) then ModemStatus
    else Nothing
  }

  function Code(source: Source): Octet {
    match source
    case LineStatus => IIR_RLSI
    case Timeout => IIR_CTI
    case DataReady => IIR_RDI
    case HoldingEmpty => IIR_THRI
    case ModemStatus => IIR_MSI
    case Nothing => IIR_NO_INT
  }

  /** The identification register shows the source in its low nibble. */
  predicate Shows(iir: Octet, source: Source) { iir & 0x0f == Code(source) }

  /** Two line-status values that differ at most in THRE and TEMT. */
  predicate SameButTransmit(x: Octet, y: Octet) {
    On(x, LSR_DR) == On(y, LSR_DR) && On(x, LSR_OE) == On(y, LSR_OE) && Clean(x) == Clean(y)
  }

  /** No break, no framing or parity error, and bit 7 clear: the model has no break. */
  predicate Clean(lsr: Octet) { lsr & 0x9c == 0 }

  lemma FcrBits(v: Octet, fcr: Octet)
    ensures On(v ^ fcr, FCR_FE) == (On(v, FCR_FE) != On(fcr, FCR_FE))
    ensures On(v & 0xc9, FCR_FE) == On(v, FCR_FE) && (v & 0xc9) & 0xc0 == v & 0xc0
  {
  }

  /** With no break, what counts as a line error is an overrun, and the register is its four bits. */
  lemma LsrBits(lsr: Octet)
    requires Clean(lsr)
    ensures On(lsr, LSR_INT_ANY) == On(lsr, LSR_OE) && On(lsr, LSR_ERRORS) == On(lsr, LSR_OE)
    ensures On(lsr, LSR_THRE) && On(lsr, LSR_TEMT) ==>
              lsr == StatusBits(On(lsr, LSR_OE), On(lsr, LSR_DR))
  {
  }

  /** The identification register from its two nibbles. */
  lemma IirBits(iir: Octet, source: Source, fifo: bool)
    requires Shows(iir, source) && High(iir) == FifoNibble(fifo)
    ensures iir == CauseBits(source, fifo)
    ensures NamesHolding(iir) <==> source == HoldingEmpty
  {
  }

  lemma NibbleGap(iir: Octet, fifo: bool)
    ensures High(iir) == FifoNibble(fifo) ==> NoGap(iir)
  {
  }

  predicate NoGap(iir: Octet) { iir & 0x30 == 0 }

  function FifoNibble(fifo: bool): Octet { if fifo then 0xc0 else 0 }

  // Bit fields of the registers, named so that proofs need not look inside.

  function High(x: Octet): Octet { x & 0xf0 }
  function NoDeltas(msr: Octet): Octet { msr & 0xf0 }
  function Enables(v: Octet): Octet { v & 0x0f }
  function Changed(ier: Octet, v: Octet): Octet { (ier ^ v) & 0x0f }
  function ModemControl(v: Octet): Octet { v & 0x1f }
  /** The modem outputs wired to the inputs. */
  function Wired(mcr: Octet): Octet { ((mcr & 0x0c) << 4) | ((mcr & 0x02) << 3) | ((mcr & 0x01) << 5) }
  function StatusBits(overrun: bool, ready: bool): Octet { 0x60 | (if overrun then 0x02 else 0) | (if ready then 0x01 else 0) }
  function CauseBits(source: Source, fifo: bool): Octet { Code(source) | FifoNibble(fifo) }
  predicate NamesHolding(iir: Octet) { iir & IIR_ID == IIR_THRI }
  function DividerBits(d: bv16, high: bool, val: bv16, byteSized: bool): bv16 {
    if high then (d & 0x00ff) | (val << 8) else if byteSized then (d & 0xff00) | val else val
  }
  function HighByte(val: bv16): Octet { LowByte(val >> 8) }

  function LowByte(val: bv16): Octet { (val & 0xff) as Octet }

  // ---- The line: what the guest and the host can tell ---------------------------------------

  /** Registers that only hold what was written. */
  datatype Settings = Settings(divider: bv16, lcr: Octet, mcr: Octet, scr: Octet)

  /** The receiver: its mode and interrupt level, bytes received and not yet read, the register, and what pends. */
  datatype Receiver = Receiver(fifo: bool, itl: nat, held: seq<Octet>, rbr: Octet, overrun: bool, timeout: bool)

  /** The whole device as guest and host can tell it; `sent` is what went to the host. */
  datatype Line = Line(regs: Settings, rx: Receiver, ier: Octet, msr: Octet, thrPending: bool, sent: seq<Octet>) {
    predicate Dlab() { On(regs.lcr, DLAB) }
    predicate Loop() { On(regs.mcr, MCR_LOOP) }
  }

  /** The line at reset. */
  const QUIET: Line := Line(Settings(0x0c, 0, MCR_OUT2, 0), Receiver(false, 1, [], 0, false, false), 0, 0, false, [])

  /** The interrupt that the line asks for, by priority. */
  function LineCause(l: Line): Source {
    if On(l.ier, IER_RLSI) && l.rx.overrun then LineStatus
    else if On(l.ier, IER_RDI) && l.rx.timeout then Timeout
    else if On(l.ier, IER_RDI) && l.rx.held != [] && (l.rx.fifo ==> |l.rx.held| >= l.rx.itl) then DataReady
    else if On(l.ier, IER_THRI) && l.thrPending then HoldingEmpty
    else if On(l.ier, IER_MSI) && On(l.msr, MSR_ANY_DELTA) then ModemStatus
    else Nothing
  }

  /** Bytes the receiver keeps when one more arrives: a full FIFO drops it, a full register is overwritten. */
  function Put(fifo: bool, held: seq<Octet>, c: Octet): seq<Octet> {
    if !fifo then [c] else if |held| < FIFO_LENGTH then held + [c] else held
  }

  function Itl(fcr: Octet): nat {
    if fcr & 0xc0 == 0x00 then 1 else if fcr & 0xc0 == 0x40 then 4 else if fcr & 0xc0 == 0x80 then 8 else 14
  }

  /** A byte arrives at the receiver; one too many is an overrun. */
  function Arrived(rx: Receiver, c: Octet): Receiver {
    rx.(held := Put(rx.fifo, rx.held, c),
        overrun := rx.overrun || |rx.held| == (if rx.fifo then FIFO_LENGTH else 1),
        rbr := if rx.fifo then rx.rbr else c)
  }

  /** A byte leaves the transmitter: back to the receiver, or to the host. */
  function Send(l: Line, c: Octet): Line { if l.Loop() then l.(rx := Arrived(l.rx, c)) else l.(sent := l.sent + [c]) }

  function SendAll(l: Line, bytes: seq<Octet>): Line
    decreases |bytes|
  {
    if bytes == [] then l else SendAll(Send(l, bytes[0]), bytes[1..])
  }

  lemma SendAllStep(l: Line, c: Octet, bytes: seq<Octet>)
    requires bytes != [] && bytes[0] == c
    ensures SendAll(l, bytes) == SendAll(Send(l, c), bytes[1..])
  {
  }

  lemma SendAllFew(l: Line, c: Octet)
    ensures SendAll(l, []) == l && SendAll(l, [c]) == Send(l, c)
  {
    assert SendAll(Send(l, c), []) == Send(l, c);
  }

  lemma SendKeepsPending(l: Line, c: Octet, b: bool)
    ensures Send(l.(thrPending := b), c) == Send(l, c).(thrPending := b)
  {
    hide Arrived;
  }

  lemma TransmittedFrom(l: Line, l': Line, v: Octet)
    requires l' == l.(thrPending := false)
    ensures SendAll(l', [v]).(thrPending := true) == Transmitted(l, v)
  {
    hide Send;
    SendAllFew(l', v);
    SendKeepsPending(l, v, false);
  }

  lemma {:induction false} SendAllPending(l: Line, bytes: seq<Octet>)
    ensures SendAll(l.(thrPending := true), bytes) == SendAll(l, bytes).(thrPending := true)
    decreases |bytes|
  {
    hide Send;
    if bytes != [] {
      SendKeepsPending(l, bytes[0], true);
      SendAllPending(Send(l, bytes[0]), bytes[1..]);
    }
  }

  /** The modem lines as the host reports them, all off, with the changes since the last look. */
  function Polled(msr: Octet): Octet {
    var off := msr & 0x0f;
    if off == msr then msr
    else
      var delta := off | ((off >> 4) ^ (msr >> 4));
      if On(delta, MSR_TERI) && !On(msr, MSR_RI) then delta & !MSR_TERI else delta
  }

  /** Reading takes the changes back. */
  function Acknowledged(msr: Octet): Octet { if On(msr, MSR_ANY_DELTA) then NoDeltas(msr) else msr }

  /** Offset 0: the byte is sent, and the empty holding register pends. */
  function Transmitted(l: Line, v: Octet): Line { Send(l, v).(thrPending := true) }

  /** Offset 1: the enables; turning THRI on or off re-arms or drops its interrupt. */
  function EnablesWritten(l: Line, v: Octet): Line {
    var changed, ier := Changed(l.ier, v), Enables(v);
    l.(ier := ier,
       thrPending := if On(changed, IER_THRI) then On(ier, IER_THRI) else l.thrPending,
       msr := if On(changed, IER_MSI) && On(ier, IER_MSI) then Polled(l.msr) else l.msr)
  }

  lemma EnablesFields(l: Line, v: Octet)
    ensures var r := EnablesWritten(l, v); r == l.(ier := Enables(v), msr := r.msr, thrPending := r.thrPending)
    ensures EnablesWritten(l, v).thrPending == if On(Changed(l.ier, v), IER_THRI) then On(Enables(v), IER_THRI) else l.thrPending
    ensures EnablesWritten(l, v).msr == if On(Changed(l.ier, v), IER_MSI) && On(Enables(v), IER_MSI) then Polled(l.msr) else l.msr
  {
    hide On, Polled, Enables, Changed;
  }

  /** FIFO mode and receive flush; changing the mode flushes. */
  function Controlled(rx: Receiver, v: Octet): Receiver {
    var fifo := On(v, FCR_FE);
    var flush := fifo != rx.fifo || On(v, FCR_RFR);
    rx.(fifo := fifo, itl := if fifo then Itl(v) else rx.itl, held := if flush then [] else rx.held, timeout := rx.timeout && !flush)
  }

  lemma ControlsReceiver(rx: Receiver, v: Octet, rx': Receiver)
    requires rx'.fifo == On(v, FCR_FE) && rx'.itl == (if rx'.fifo then Itl(v) else rx.itl)
    requires rx'.rbr == rx.rbr && rx'.overrun == rx.overrun
    requires var flush := rx'.fifo != rx.fifo || On(v, FCR_RFR);
             rx'.held == (if flush then [] else rx.held) && rx'.timeout == (rx.timeout && !flush)
    ensures rx' == Controlled(rx, v)
  {
  }

  /** Offset 2: a transmit flush, or a change of mode, makes the empty holding register pend. */
  function ControlWritten(l: Line, v: Octet): Line {
    l.(rx := Controlled(l.rx, v), thrPending := l.thrPending || On(v, FCR_FE) != l.rx.fifo || On(v, FCR_XFR))
  }

  function DividerWritten(regs: Settings, addr: nat, val: bv16, byteSized: bool): Settings {
    regs.(divider := DividerBits(regs.divider, addr == 1, val, byteSized))
  }

  function Stored(regs: Settings, addr: nat, v: Octet): Settings {
    if addr == 3 then regs.(lcr := v) else if addr == 4 then regs.(mcr := ModemControl(v)) else regs.(scr := v)
  }

  function LineWrite(l: Line, addr: nat, val: bv16, byteSized: bool): Line {
    if addr <= 1 && l.Dlab() then l.(regs := DividerWritten(l.regs, addr, val, byteSized))
    else if addr == 0 then Transmitted(l, LowByte(val))
    else if addr == 1 then EnablesWritten(l, LowByte(val))
    else if addr == 2 then ControlWritten(l, LowByte(val))
    else if addr == 3 || addr == 4 || addr == 7 then l.(regs := Stored(l.regs, addr, LowByte(val)))
    else l
  }

  /** Offset 0: the oldest byte is gone, and with it the timeout of the FIFO. */
  function ReceivedRead(rx: Receiver): Receiver {
    rx.(held := if rx.held == [] then [] else rx.held[1..], timeout := rx.timeout && !rx.fifo)
  }

  /** Offset 2: reading the interrupt of an empty holding register takes it back. */
  function CauseRead(l: Line): Line { if LineCause(l) == HoldingEmpty then l.(thrPending := false) else l }

  /** Offset 6: reading takes the changes of the modem lines back. */
  function ModemRead(l: Line): Octet { if l.Loop() then l.msr else Acknowledged(Polled(l.msr)) }

  /** What a read leaves. */
  function LineRead(l: Line, addr: nat): Line {
    if addr == 0 && !l.Dlab() then l.(rx := ReceivedRead(l.rx))
    else if addr == 2 then CauseRead(l)
    else if addr == 5 then l.(rx := l.rx.(overrun := false))
    else if addr == 6 then l.(msr := ModemRead(l))
    else l
  }

  function ReceivedValue(rx: Receiver): Octet { if rx.held != [] then rx.held[0] else if rx.fifo then 0 else rx.rbr }

  function CauseValue(l: Line): Octet { CauseBits(LineCause(l), l.rx.fifo) }

  function StatusValue(rx: Receiver): Octet { StatusBits(rx.overrun, rx.held != []) }

  /** In loopback the modem outputs are wired to the inputs. */
  function ModemValue(l: Line): Octet {
    if l.Loop() then Wired(l.regs.mcr) else Polled(l.msr)
  }

  /** What a read returns. */
  function LineValue(l: Line, addr: nat): Octet {
    match addr
    case 0 => if l.Dlab() then LowByte(l.regs.divider) else ReceivedValue(l.rx)
    case 1 => if l.Dlab() then HighByte(l.regs.divider) else l.ier
    case 2 => CauseValue(l)
    case 3 => l.regs.lcr
    case 4 => l.regs.mcr
    case 5 => StatusValue(l.rx)
    case 6 => ModemValue(l)
    case _ => l.regs.scr
  }

  /** How many bytes the receiver asks of the host. */
  function Room(rx: Receiver): nat {
    if !rx.fifo then (if rx.held == [] then 1 else 0)
    else if |rx.held| >= FIFO_LENGTH then 0
    else if |rx.held| <= rx.itl then rx.itl - |rx.held|
    else FIFO_LENGTH - |rx.held|
  }

  function Taken(rx: Receiver, input: seq<Octet>): seq<Octet> {
    if |input| <= Room(rx) then input else input[..Room(rx)]
  }

  /** Bytes taken from the host; in FIFO mode the timeout is reported at once. */
  function HostTake(rx: Receiver, bytes: seq<Octet>): Receiver {
    if bytes == [] then rx
    else rx.(held := rx.held + bytes, timeout := rx.timeout || rx.fifo, rbr := if rx.fifo then rx.rbr else bytes[|bytes| - 1])
  }

  /** One byte taken leaves room for one less. */
  lemma RoomStep(rx: Receiver, c: Octet)
    requires rx.fifo ==> rx.itl <= FIFO_LENGTH
    ensures Room(rx) > 0 ==> Room(HostTake(rx, [c])) == Room(rx) - 1
  {
  }

  lemma HostTakeNone(rx: Receiver)
    ensures HostTake(rx, []) == rx
  {
  }

  lemma HostTakeStep(rx: Receiver, bytes: seq<Octet>, c: Octet)
    ensures HostTake(HostTake(rx, bytes), [c]) == HostTake(rx, bytes + [c])
  {
    assert rx.held + (bytes + [c]) == rx.held + bytes + [c];
  }

  lemma TakenPrefix(rx: Receiver, input: seq<Octet>, used: nat)
    requires used <= |input| && used <= Room(rx) && (used == |input| || used == Room(rx))
    ensures input[..used] == Taken(rx, input)
  {
    assert used == |input| ==> input[..used] == input;
  }

  class SerialState {
    var divider: bv16
    var rbr: Octet
    var thr: Octet
    var tsr: Octet
    var ier: Octet
    var iir: Octet
    var lcr: Octet
    var mcr: Octet
    var lsr: Octet
    var msr: Octet
    var scr: Octet
    var fcr: Octet
    var thrIpending: bool
    var timeoutIpending: bool
    var tsrRetry: nat
    var recvFifoItl: nat
    var pollMsl: int
    var irq: bool
    /** Bytes written to the host's standard output. */
    var output: seq<Octet>
    const recv: Fifo8
    const xmit: Fifo8

    ghost const Repr: set<object> := {this, recv, recv.data, xmit, xmit.data}

    ghost predicate Separate()
      reads recv, xmit
    {
      && recv != xmit && recv.data != xmit.data
      && recv.Valid() && xmit.Valid() && recv.capacity == FIFO_LENGTH && xmit.capacity == FIFO_LENGTH
    }

    function Cause(): Source
      reads this`ier, this`lsr, this`msr, this`timeoutIpending, this`thrIpending, this`fcr, this`recvFifoItl, recv`num
    {
      CauseOf(ier, lsr, msr, timeoutIpending, thrIpending, !On(fcr, FCR_FE) || recv.num >= recvFifoItl)
    }

    /** The interrupt line and the identification register agree with the cause. */
    ghost predicate IrqSettled()
      reads this`irq, this`iir
      reads this`ier, this`lsr, this`msr, this`timeoutIpending, this`thrIpending, this`fcr, this`recvFifoItl, recv`num
    {
      irq == (Cause() != Nothing) && Shows(iir, Cause())
    }

    ghost function Held(): seq<Octet>
      requires recv.Valid()
      reads this`fcr, this`lsr, this`rbr, recv, recv.data
    {
      if On(fcr, FCR_FE) then recv.Contents() else if On(lsr, LSR_DR) then [rbr] else []
    }

    /** The receiver's state: DR says whether bytes are held, IIR whether the FIFOs are on. */
    ghost predicate ReceiverOk()
      reads this`lsr, this`iir, this`fcr, this`pollMsl, this`recvFifoItl, recv`num
    {
      && Clean(lsr) && High(iir) == FifoNibble(On(fcr, FCR_FE)) && pollMsl >= 0
      && (On(fcr, FCR_FE) ==> (On(lsr, LSR_DR) <==> recv.num > 0) && recvFifoItl in {1, 4, 8, 14})
      && (!On(fcr, FCR_FE) ==> recv.num == 0)
    }

    /** Between operations the transmitter is empty and says so. */
    ghost predicate TransmitterIdle()
      reads this`tsrRetry, this`lsr, xmit`num
    {
      tsrRetry == 0 && On(lsr, LSR_THRE) && On(lsr, LSR_TEMT) && xmit.num == 0
    }

    ghost predicate Valid()
      reads this, recv, xmit
    {
      Separate() && ReceiverOk() && TransmitterIdle() && IrqSettled()
    }

    ghost function Rx(): Receiver
      requires recv.Valid()
      reads this`fcr, this`lsr, this`rbr, this`recvFifoItl, this`timeoutIpending, recv, recv.data
    {
      Receiver(On(fcr, FCR_FE), recvFifoItl, Held(), rbr, On(lsr, LSR_OE), timeoutIpending)
    }

    ghost function Set(): Settings
      reads this`divider, this`lcr, this`mcr, this`scr
    {
      Settings(divider, lcr, mcr, scr)
    }

    ghost function Abs(): Line
      requires recv.Valid()
      reads this, recv, recv.data
    {
      Line(Set(), Rx(), ier, msr, thrIpending, output)
    }

    /** simple_serial_init and serial_reset, with FCR starting at zero. */
    constructor ()
      ensures Valid() && fresh(Repr)
      ensures Abs() == QUIET
    {
      recv := new Fifo8(FIFO_LENGTH);
      xmit := new Fifo8(FIFO_LENGTH);
      rbr, thr, tsr, ier, iir, lcr := 0, 0, 0, 0, IIR_NO_INT, 0;
      lsr := LSR_TEMT | LSR_THRE;
      msr := 0;
      divider, mcr, scr, fcr := 0x0c, MCR_OUT2, 0, 0;
      tsrRetry, pollMsl, timeoutIpending, thrIpending := 0, 0, false, false;
      recvFifoItl := 1;
      irq, output := false, [];
    }

    /** serial_update_irq. */
    method UpdateIrq()
      modifies this`iir, this`irq
      ensures IrqSettled() && High(iir) == High(old(iir)) && (old(ReceiverOk()) ==> ReceiverOk())
    {
      var code := IIR_NO_INT;
      if On(ier, IER_RLSI) && On(lsr, LSR_INT_ANY) {
        code := IIR_RLSI;
      } else if On(ier, IER_RDI) && timeoutIpending {
        code := IIR_CTI;
      } else if On(ier, IER_RDI) && On(lsr, LSR_DR) && (!On(fcr, FCR_FE) || recv.num >= recvFifoItl) {
        code := IIR_RDI;
      } else if On(ier, IER_THRI) && thrIpending {
        code := IIR_THRI;
      } else if On(ier, IER_MSI) && On(msr, MSR_ANY_DELTA) {
        code := IIR_MSI;
      }
      iir := code | (iir & 0xf0);
      irq := code != IIR_NO_INT;
    }

    /** serial_update_msl; the host reports no modem line. */
    method UpdateMsl()
      modifies this`msr, this`iir, this`irq
      ensures msr == Polled(old(msr)) && High(iir) == High(old(iir))
      ensures old(IrqSettled()) ==> IrqSettled()
    {
      hide CauseOf, Code;
      var omsr := msr;
      msr := msr & !MSR_CTS;
      msr := msr & !MSR_DSR;
      msr := msr & !MSR_DCD;
      msr := msr & !MSR_RI;
      if msr != omsr {
        msr := msr | ((msr >> 4) ^ (omsr >> 4));
        if On(msr, MSR_TERI) && !On(omsr, MSR_RI) {
          msr := msr & !MSR_TERI;
        }
        UpdateIrq();
      }
    }

    /** recv_fifo_put. */
    method RecvFifoPut(c: Octet)
      requires Separate()
      modifies this`lsr, recv`num, recv.data
      ensures Separate() && recv.Contents() == Put(true, old(recv.Contents()), c)
      ensures lsr == if old(recv.num) < FIFO_LENGTH then old(lsr) else old(lsr) | LSR_OE
    {
      if recv.num != recv.capacity {
        recv.Push(c);
      } else {
        lsr := lsr | LSR_OE;
      }
    }

    /** serial_receive1 for one byte. */
    method Receive(c: Octet)
      requires Separate() && ReceiverOk()
      modifies this`lsr, this`rbr, this`iir, this`irq, recv`num, recv.data
      ensures Separate() && ReceiverOk() && IrqSettled() && Rx() == Arrived(old(Rx()), c)
      ensures On(lsr, LSR_THRE) == On(old(lsr), LSR_THRE) && On(lsr, LSR_TEMT) == On(old(lsr), LSR_TEMT)
    {
      if On(fcr, FCR_FE) {
        RecvFifoPut(c);
        lsr := lsr | LSR_DR;
      } else {
        if On(lsr, LSR_DR) {
          lsr := lsr | LSR_OE;
        }
        rbr := c;
        lsr := lsr | LSR_DR;
      }
      UpdateIrq();
    }

    /** The bytes waiting to be sent. */
    ghost function Waiting(): seq<Octet>
      requires xmit.Valid()
      reads this`fcr, this`thr, xmit, xmit.data
    {
      if On(fcr, FCR_FE) then xmit.Contents() else [thr]
    }

    /** What serial_xmit asserts at the start of each pass. */
    ghost predicate Sending()
      reads this`tsrRetry, this`lsr, this`fcr, xmit`num
    {
      && tsrRetry == 0 && !On(lsr, LSR_TEMT) && !On(lsr, LSR_THRE)
      && (On(fcr, FCR_FE) <==> xmit.num > 0)
    }

    method SetThre()
      requires IrqSettled() && Separate() && ReceiverOk()
      modifies this`lsr
      ensures Separate() && ReceiverOk() && Rx() == old(Rx())
      ensures On(lsr, LSR_THRE) && On(lsr, LSR_TEMT) == On(old(lsr), LSR_TEMT) && SameButTransmit(lsr, old(lsr))
      ensures IrqSettled()
    {
      lsr := lsr | LSR_THRE;
    }

    method SetTemt()
      requires IrqSettled() && Separate() && ReceiverOk()
      modifies this`lsr
      ensures Separate() && ReceiverOk() && Rx() == old(Rx())
      ensures On(lsr, LSR_TEMT) && On(lsr, LSR_THRE) == On(old(lsr), LSR_THRE) && SameButTransmit(lsr, old(lsr))
      ensures IrqSettled()
    {
      lsr := lsr | LSR_TEMT;
    }

    /** The first half of a pass: take the next byte, and mark the holding register empty after the last. */
    method TakeByte()
      requires Separate() && ReceiverOk() && Sending() && IrqSettled()
      modifies this`tsr, this`lsr, xmit
      ensures Separate() && ReceiverOk() && Rx() == old(Rx())
      ensures IrqSettled() && On(lsr, LSR_THRE) == (xmit.num == 0)
      ensures !On(lsr, LSR_TEMT) && SameButTransmit(lsr, old(lsr)) && (!On(fcr, FCR_FE) ==> xmit.num == 0)
      ensures old(Waiting()) == [tsr] + (if On(fcr, FCR_FE) then xmit.Contents() else [])
    {
      hide On, CauseOf, Shows, Fifo8.Contents, Fifo8.Slot;
      assert !On(lsr, LSR_THRE);
      if On(fcr, FCR_FE) {
        assert xmit.num != 0;
        tsr := xmit.Pop();
        if xmit.num == 0 {
          SetThre();
        }
      } else {
        tsr := thr;
        SetThre();
      }
    }

    /** The interrupt for an empty holding register. */
    method ReportEmpty()
      requires IrqSettled() && Separate() && ReceiverOk()
      modifies this`thrIpending, this`iir, this`irq
      ensures IrqSettled() && Separate() && ReceiverOk()
      ensures Rx() == old(Rx()) && thrIpending == (old(thrIpending) || On(lsr, LSR_THRE))
    {
      hide On, CauseOf, Shows;
      if On(lsr, LSR_THRE) && !thrIpending {
        thrIpending := true;
        UpdateIrq();
      }
    }

    /** The second half: loop the byte back to the receiver, or write it to the host. */
    method Emit()
      requires Separate() && ReceiverOk() && IrqSettled()
      modifies this`lsr, this`rbr, this`iir, this`irq, this`output, recv`num, recv.data
      ensures Separate() && ReceiverOk() && IrqSettled()
      ensures On(lsr, LSR_THRE) == On(old(lsr), LSR_THRE) && On(lsr, LSR_TEMT) == On(old(lsr), LSR_TEMT)
      ensures Abs() == Send(old(Abs()), tsr)
    {
      hide On, CauseOf, Shows, Fifo8.Contents, Fifo8.Slot;
      if On(mcr, MCR_LOOP) {
        Receive(tsr);
      } else {
        output := output + [tsr];
      }
    }

    /** One pass of serial_xmit. */
    method SendOne()
      requires Separate() && ReceiverOk() && IrqSettled() && Sending()
      modifies this`tsr, this`lsr, this`thrIpending, this`iir, this`irq, this`rbr, this`output, this`tsrRetry, recv`num, recv.data, xmit
      ensures Separate() && ReceiverOk() && IrqSettled() && tsrRetry == 0 && !On(lsr, LSR_TEMT)
      ensures On(lsr, LSR_THRE) == (xmit.num == 0) && (!On(fcr, FCR_FE) ==> xmit.num == 0)
      ensures old(Waiting()) == [tsr] + (if On(fcr, FCR_FE) then xmit.Contents() else [])
      ensures Abs() == Send(old(Abs()), tsr).(thrPending := old(thrIpending) || On(lsr, LSR_THRE))
    {
      hide On, Clean, High, Send, Held, Rx, Set, ReceiverOk, CauseOf, Shows, Fifo8.Contents, Fifo8.Slot, IrqSettled;
      assert !On(lsr, LSR_TEMT);
      ghost var l := Abs();
      TakeByte();
      ReportEmpty();
      assert Abs() == l.(thrPending := thrIpending);
      SendKeepsPending(l, tsr, thrIpending);
      Emit();
      tsrRetry := 0;
    }

    /** serial_xmit: send everything that waits, in order. */
    method Xmit()
      requires Separate() && ReceiverOk() && IrqSettled() && Sending()
      modifies this`tsr, this`lsr, this`thrIpending, this`iir, this`irq, this`rbr, this`output, this`tsrRetry, recv`num, recv.data, xmit
      ensures Valid() && Abs() == SendAll(old(Abs()), old(Waiting())).(thrPending := true)
    {
      hide On, CauseOf, Shows, Fifo8.Contents, Fifo8.Slot, IrqSettled, ReceiverOk, Held, Send, SendAll;
      ghost var rest, l := Waiting(), Abs();
      SendAllPending(l, rest);
      var done := false;
      while !done
        invariant Separate() && ReceiverOk() && IrqSettled() && tsrRetry == 0 && !On(lsr, LSR_TEMT)
        invariant done == On(lsr, LSR_THRE) && (done ==> thrIpending)
        invariant if done then rest == [] && xmit.num == 0 else Sending() && rest == Waiting()
        invariant SendAll(Abs().(thrPending := true), rest) == SendAll(l, old(Waiting())).(thrPending := true)
        decreases |rest|
      {
        ghost var before := Abs();
        SendOne();
        SendKeepsPending(before, tsr, true);
        SendAllStep(before.(thrPending := true), tsr, rest);
        rest := rest[1..];
        done := On(lsr, LSR_THRE);
      }
      SendAllFew(Abs().(thrPending := true), 0);
      SetTemt();
    }

    // ---- Register writes -----------------------------------------------------------------

    method ClearTransmit()
      requires Separate() && ReceiverOk()
      modifies this`lsr, this`thrIpending, this`iir, this`irq
      ensures Separate() && ReceiverOk() && IrqSettled() && Rx() == old(Rx()) && !thrIpending
      ensures !On(lsr, LSR_THRE) && !On(lsr, LSR_TEMT) && SameButTransmit(lsr, old(lsr))
    {
      thrIpending := false;
      lsr := lsr & !LSR_THRE;
      lsr := lsr & !LSR_TEMT;
      UpdateIrq();
    }

    /** Put a byte in the holding register, and in the transmit FIFO if it is on; a full FIFO loses its oldest. */
    method LoadThr(v: Octet)
      requires Separate() && ReceiverOk()
      modifies this`thr, xmit, xmit.data
      ensures Separate() && ReceiverOk() && Rx() == old(Rx()) && thr == v
      ensures if On(fcr, FCR_FE) then
                var kept := if old(xmit.num) == FIFO_LENGTH then old(xmit.Contents())[1..] else old(xmit.Contents());
                xmit.Contents() == kept + [v]
              else xmit.num == old(xmit.num)
    {
      hide On, Fifo8.Contents, Fifo8.Slot;
      thr := v;
      if On(fcr, FCR_FE) {
        if xmit.num == xmit.capacity {
          var lost := xmit.Pop();
        }
        xmit.Push(thr);
      }
    }

    /** Offset 0 with DLAB clear: a byte to transmit. */
    method WriteThr(v: Octet)
      requires Valid() && !On(lcr, DLAB)
      modifies this, recv, recv.data, xmit, xmit.data
      ensures Valid() && Abs() == Transmitted(old(Abs()), v)
    {
      hide On, CauseOf, Shows, Fifo8.Contents, Fifo8.Slot, Held, IrqSettled, ReceiverOk, SendAll, Transmitted, Rx, Set;
      assert xmit.Contents() == [];
      ghost var l := Abs();
      LoadThr(v);
      assert Waiting() == [v];
      ClearTransmit();
      TransmittedFrom(l, Abs(), v);
      if tsrRetry == 0 {
        Xmit();
      }
    }

    /** IER takes its new value; which of the two enables that matter did change, and did any. */
    method ChangeEnables(v: Octet) returns (any: bool, msi: bool, thri: bool)
      requires IrqSettled()
      modifies this`ier
      ensures ier == Enables(v)
      ensures msi == On(Changed(old(ier), v), IER_MSI) && thri == On(Changed(old(ier), v), IER_THRI)
      ensures !any ==> !msi && !thri && IrqSettled()
    {
      var changed := (ier ^ v) & 0x0f;
      ier := v & 0x0f;
      any, msi, thri := changed != 0, On(changed, IER_MSI), On(changed, IER_THRI);
    }

    /** Modem polling follows its enable. */
    method PollModem(changed: bool)
      requires ReceiverOk()
      modifies this`pollMsl, this`msr, this`iir, this`irq
      ensures ReceiverOk()
      ensures msr == if changed && On(ier, IER_MSI) then Polled(old(msr)) else old(msr)
      ensures !changed ==> iir == old(iir) && irq == old(irq)
    {
      hide Polled, On, High, CauseOf, Shows;
      if changed && pollMsl >= 0 {
        if On(ier, IER_MSI) {
          pollMsl := 1;
          UpdateMsl();
        } else {
          pollMsl := 0;
        }
      }
    }

    /** Turning the THR interrupt on can raise it at once. */
    method RearmThr(changed: bool)
      modifies this`thrIpending
      ensures thrIpending == if changed then On(ier, IER_THRI) && On(lsr, LSR_THRE) else old(thrIpending)
    {
      if changed {
        thrIpending := On(ier, IER_THRI) && On(lsr, LSR_THRE);
      }
    }

    /** Offset 1 with DLAB clear: interrupt enables. */
    method WriteIer(v: Octet)
      requires Valid()
      modifies this`ier, this`pollMsl, this`msr, this`thrIpending, this`iir, this`irq
      ensures Valid()
      ensures ier == Enables(v)
      ensures thrIpending == if On(Changed(old(ier), v), IER_THRI) then On(Enables(v), IER_THRI) else old(thrIpending)
      ensures msr == if On(Changed(old(ier), v), IER_MSI) && On(Enables(v), IER_MSI) then Polled(old(msr)) else old(msr)
    {
      assert On(lsr, LSR_THRE);
      hide On, Fifo8.Contents, IrqSettled, ReceiverOk, TransmitterIdle, Polled, Held, Enables, Changed, Rx, Set;
      var any, msi, thri := ChangeEnables(v);
      PollModem(msi);
      RearmThr(thri);
      if any {
        UpdateIrq();
      }
    }

    /** The receive half of an FCR write. */
    method FlushReceiver()
      requires Separate()
      modifies this`lsr, this`timeoutIpending, recv
      ensures Separate() && recv.num == 0 && recv.Contents() == [] && !On(lsr, LSR_DR)
      ensures On(lsr, LSR_THRE) == On(old(lsr), LSR_THRE) && On(lsr, LSR_TEMT) == On(old(lsr), LSR_TEMT)
      ensures On(lsr, LSR_OE) == On(old(lsr), LSR_OE) && (Clean(old(lsr)) ==> Clean(lsr)) && !timeoutIpending
    {
      lsr := lsr & !(LSR_DR | LSR_BI);
      timeoutIpending := false;
      recv.Reset();
    }

    /** serial_write_fcr, on the bits that stick. */
    method SetFcr(v: Octet)
      modifies this`fcr, this`iir, this`recvFifoItl
      ensures On(fcr, FCR_FE) == On(v, FCR_FE)
      ensures recvFifoItl == if On(v, FCR_FE) then Itl(v) else old(recvFifoItl)
      ensures On(v, FCR_FE) ==> recvFifoItl in {1, 4, 8, 14}
      ensures NoGap(old(iir)) ==> High(iir) == FifoNibble(On(v, FCR_FE))
    {
      var stick := v & 0xc9;
      FcrBits(v, fcr);
      fcr := stick;
      if On(stick, FCR_FE) {
        iir := iir | IIR_FE;
        recvFifoItl := Itl(stick);
      } else {
        iir := iir & !IIR_FE;
      }
    }

    method FifoToggled(v: Octet) returns (toggled: bool)
      ensures toggled == (On(v, FCR_FE) != On(fcr, FCR_FE))
    {
      FcrBits(v, fcr);
      toggled := On(v ^ fcr, FCR_FE);
    }

    /** The transmit half of an FCR write. */
    method FlushTransmitter()
      requires Separate() && TransmitterIdle()
      modifies this`lsr, this`thrIpending, xmit
      ensures Separate() && TransmitterIdle() && SameButTransmit(lsr, old(lsr)) && thrIpending
    {
      lsr := lsr | LSR_THRE;
      thrIpending := true;
      xmit.Reset();
    }

    /** Flush either half, both or none. */
    method Flush(receiver: bool, transmitter: bool)
      requires Separate() && TransmitterIdle()
      modifies this`lsr, this`timeoutIpending, this`thrIpending, recv, xmit
      ensures Separate() && TransmitterIdle() && On(lsr, LSR_OE) == On(old(lsr), LSR_OE) && (Clean(old(lsr)) ==> Clean(lsr))
      ensures timeoutIpending == (old(timeoutIpending) && !receiver) && thrIpending == (old(thrIpending) || transmitter)
      ensures recv.Contents() == if receiver then [] else old(recv.Contents())
      ensures On(lsr, LSR_DR) == (!receiver && On(old(lsr), LSR_DR))
    {
      hide On, Clean, Fifo8.Contents, Fifo8.Slot;
      ghost var before := recv.Contents();
      if receiver {
        FlushReceiver();
      }
      if transmitter {
        FlushTransmitter();
      }
      assert !receiver ==> recv.Contents() == before;
    }

    /** Offset 2: FIFO control.  Turning the FIFOs on or off flushes both. */
    method WriteFcr(v: Octet)
      requires Valid()
      modifies this`lsr, this`timeoutIpending, this`thrIpending, this`fcr, this`iir, this`irq, this`recvFifoItl, recv, xmit
      ensures Valid() && Rx() == Controlled(old(Rx()), v)
      ensures thrIpending == (old(thrIpending) || On(v, FCR_FE) != old(Rx()).fifo || On(v, FCR_XFR))
    {
      hide On, Clean, CauseOf, Shows, Fifo8.Contents, Fifo8.Slot, Itl, IrqSettled, FifoNibble, High, NoGap, Controlled, Set;
      NibbleGap(iir, On(fcr, FCR_FE));
      var toggled := FifoToggled(v);
      Flush(toggled || On(v, FCR_RFR), toggled || On(v, FCR_XFR));
      SetFcr(v);
      UpdateIrq();
      ControlsReceiver(old(Rx()), v, Rx());
    }

    /** Line control, modem control and the scratch register are plain stores. */
    method Store(addr: nat, v: Octet)
      requires Valid()
      modifies this`lcr, this`mcr, this`scr
      ensures Valid() && Set() == Stored(old(Set()), addr, v)
    {
      hide On, IrqSettled, ReceiverOk, TransmitterIdle, Held, ModemControl;
      if addr == 3 {
        lcr := v;
      } else if addr == 4 {
        mcr := ModemControl(v);
      } else {
        scr := v;
      }
    }

    method StoreDivider(addr: nat, val: bv16, byteSized: bool)
      requires Valid()
      modifies this`divider
      ensures Valid() && Set() == DividerWritten(old(Set()), addr, val, byteSized)
    {
      hide On, IrqSettled, ReceiverOk, TransmitterIdle, Held, DividerBits;
      divider := DividerBits(divider, addr == 1, val, byteSized);
    }

    /** Offsets 0 and 1: the divider under DLAB, else data and enables. */
    method WriteLow(a: nat, val: bv16, byteSized: bool)
      requires Valid() && a <= 1
      modifies this, recv, recv.data, xmit, xmit.data
      ensures Valid() && Abs() == LineWrite(old(Abs()), a, val, byteSized)
    {
      hide On, Fifo8.Contents, LowByte, Held, IrqSettled, ReceiverOk, TransmitterIdle, Transmitted, EnablesWritten, DividerWritten, Rx,
        Enables, Changed, Polled, Controlled, Stored;
      if On(lcr, DLAB) {
        StoreDivider(a, val, byteSized);
      } else if a == 0 {
        WriteThr(LowByte(val));
      } else {
        EnablesFields(Abs(), LowByte(val));
        WriteIer(LowByte(val));
      }
    }

    /** serial_plus_ioport_write; the value is given by its low 16 bits. */
    method IoWrite(addr: nat, val: bv16, byteSized: bool)
      requires Valid()
      modifies this, recv, recv.data, xmit, xmit.data
      ensures Valid() && Abs() == LineWrite(old(Abs()), addr % 8, val, byteSized)
    {
      hide On, Fifo8.Contents, LowByte, Held, IrqSettled, ReceiverOk, TransmitterIdle, Transmitted, EnablesWritten, DividerWritten,
        Controlled, Stored, Set;
      var a := addr % 8;
      if a <= 1 {
        WriteLow(a, val, byteSized);
      } else if a == 2 {
        WriteFcr(LowByte(val));
      } else if a == 3 || a == 4 || a == 7 {
        Store(a, LowByte(val));
      }
    }

    // ---- Register reads ------------------------------------------------------------------

    method ClearDataReady()
      requires TransmitterIdle()
      modifies this`lsr
      ensures !On(lsr, LSR_DR) && On(lsr, LSR_OE) == On(old(lsr), LSR_OE) && TransmitterIdle() && (Clean(old(lsr)) ==> Clean(lsr))
    {
      lsr := lsr & !(LSR_DR | LSR_BI);
    }

    /** The oldest byte of the receive FIFO, or 0. */
    method PopOldest() returns (ret: Octet)
      requires Separate()
      modifies recv
      ensures Separate() && (recv.num > 0 ==> old(recv.num) > 0)
      ensures if old(recv.num) == 0 then ret == 0 && recv.num == 0 else old(recv.Contents()) == [ret] + recv.Contents()
    {
      hide Fifo8.Contents, Fifo8.Slot;
      ret := 0;
      if recv.num != 0 {
        ret := recv.Pop();
      }
    }

    method PopReceived() returns (ret: Octet)
      requires Separate() && ReceiverOk() && TransmitterIdle() && On(fcr, FCR_FE)
      modifies this`lsr, this`timeoutIpending, recv
      ensures Separate() && ReceiverOk() && TransmitterIdle() && On(lsr, LSR_OE) == On(old(lsr), LSR_OE) && !timeoutIpending
      ensures if old(recv.num) == 0 then ret == 0 && recv.num == 0 else old(recv.Contents()) == [ret] + recv.Contents()
    {
      hide On, Clean, High, FifoNibble, Fifo8.Contents, Fifo8.Slot;
      ret := PopOldest();
      if recv.num == 0 {
        ClearDataReady();
      }
      timeoutIpending := false;
    }

    /** Offset 0 with DLAB clear: the oldest byte held. */
    method ReadRbr() returns (ret: Octet)
      requires Valid() && !On(lcr, DLAB)
      modifies this`lsr, this`timeoutIpending, this`iir, this`irq, recv
      ensures Valid() && Rx() == ReceivedRead(old(Rx())) && ret == ReceivedValue(old(Rx()))
    {
      hide On, Clean, High, CauseOf, Shows, Fifo8.Contents, Fifo8.Slot, IrqSettled;
      if On(fcr, FCR_FE) {
        ret := PopReceived();
      } else {
        ret := rbr;
        ClearDataReady();
      }
      UpdateIrq();
      assert Held() == if old(Held()) == [] then [] else old(Held())[1..];
    }

    /** The cause in the registers is the line's. */
    lemma CauseIsLineCause()
      requires Separate() && ReceiverOk()
      ensures Cause() == LineCause(Abs())
    {
      hide On, Clean, Fifo8.Slot, FifoNibble;
      LsrBits(lsr);
    }

    /** Offset 2: reading the identification of an empty holding register takes its interrupt back. */
    method ReadIir() returns (ret: Octet)
      requires Valid()
      modifies this`thrIpending, this`iir, this`irq
      ensures Valid() && Abs() == CauseRead(old(Abs())) && ret == CauseValue(old(Abs()))
    {
      hide On, Clean, CauseOf, Shows, Code, FifoNibble, High, CauseBits, NamesHolding, Fifo8.Contents, Fifo8.Slot, LineCause, Cause, Held;
      CauseIsLineCause();
      IirBits(iir, Cause(), On(fcr, FCR_FE));
      ret := iir;
      if NamesHolding(ret) {
        thrIpending := false;
        UpdateIrq();
      }
    }

    method ClearLineErrors()
      requires Separate() && ReceiverOk() && TransmitterIdle()
      modifies this`lsr
      ensures Separate() && ReceiverOk() && TransmitterIdle() && Rx() == old(Rx()).(overrun := false)
    {
      lsr := lsr & !(LSR_ERRORS);
    }

    /** Offset 5: line status; reading it clears break and overrun. */
    method ReadLsr() returns (ret: Octet)
      requires Valid()
      modifies this`lsr, this`iir, this`irq
      ensures Valid() && Rx() == old(Rx()).(overrun := false) && ret == StatusValue(old(Rx()))
    {
      hide On, Clean, CauseOf, Shows, Fifo8.Slot, FifoNibble, High, StatusBits;
      LsrBits(lsr);
      ret := lsr;
      if On(lsr, LSR_ERRORS) {
        ClearLineErrors();
        UpdateIrq();
      }
    }

    /** Offset 6: modem status; in loopback the outputs are wired to the inputs. */
    method ReadMsr() returns (ret: Octet)
      requires Valid()
      modifies this`msr, this`iir, this`irq
      ensures Valid() && msr == ModemRead(old(Abs())) && ret == ModemValue(old(Abs()))
    {
      hide CauseOf, Shows, Fifo8.Contents, Fifo8.Slot, On, Clean, Polled, FifoNibble, Held, TransmitterIdle, High, NoDeltas, Wired;
      if On(mcr, MCR_LOOP) {
        ret := Wired(mcr);
      } else {
        if pollMsl >= 0 {
          UpdateMsl();
        }
        ret := msr;
        if On(msr, MSR_ANY_DELTA) {
          msr := NoDeltas(msr);
          UpdateIrq();
        }
      }
    }

    /** serial_plus_ioport_read. */
    method IoRead(addr: nat) returns (ret: Octet)
      requires Valid()
      modifies this`lsr, this`timeoutIpending, this`thrIpending, this`msr, this`iir, this`irq, recv
      ensures Valid() && Abs() == LineRead(old(Abs()), addr % 8) && ret == LineValue(old(Abs()), addr % 8)
    {
      hide On, Fifo8.Contents, LowByte, IrqSettled, ReceiverOk, TransmitterIdle, Held,
        ReceivedRead, CauseRead, ModemRead, ReceivedValue, CauseValue, StatusValue, ModemValue, HighByte, Rx;
      var a := addr % 8;
      if a == 0 {
        if On(lcr, DLAB) {
          ret := LowByte(divider);
        } else {
          ret := ReadRbr();
        }
      } else if a == 1 {
        ret := if On(lcr, DLAB) then HighByte(divider) else ier;
      } else if a == 2 {
        ret := ReadIir();
      } else if a == 5 {
        ret := ReadLsr();
      } else if a == 6 {
        ret := ReadMsr();
      } else {
        ret := if a == 3 then lcr else if a == 4 then mcr else scr;
      }
    }

    /** Whether data waits, as the DR bit says. */
    method DataReady() returns (ready: bool)
      requires Valid()
      ensures ready == (Held() != [])
    {
      ready := On(lsr, LSR_DR);
    }

    // ---- Host input --------------------------------------------------------------------

    /** serial_can_receive: how many bytes the receiver would take now. */
    function CanReceive(): nat
      reads this, recv
    {
      if On(fcr, FCR_FE) then
        if recv.num >= FIFO_LENGTH then 0 else if recv.num <= recvFifoItl then recvFifoItl - recv.num else 1
      else if On(lsr, LSR_DR) then 0 else 1
    }

    /** serial_receive1 and fifo_timeout_int for a byte from the host. */
    method TakeFromHost(c: Octet)
      requires Valid() && CanReceive() > 0
      modifies this`lsr, this`rbr, this`iir, this`irq, this`timeoutIpending, recv`num, recv.data
      ensures Valid() && Rx() == HostTake(old(Rx()), [c])
    {
      hide On, Clean, High, CauseOf, Shows, Fifo8.Slot, FifoNibble;
      Receive(c);
      if recv.num > 0 {
        timeoutIpending := true;
        UpdateIrq();
      }
    }

    /** serial_check_io: take input while the receiver has room; `input` is what the host has ready. */
    method CheckIo(input: seq<Octet>) returns (used: nat)
      requires Valid()
      modifies this`lsr, this`rbr, this`iir, this`irq, this`timeoutIpending, recv`num, recv.data
      ensures Valid() && used <= |input| && input[..used] == Taken(old(Rx()), input)
      ensures Rx() == HostTake(old(Rx()), input[..used])
    {
      hide On, Clean, High, HostTake, CauseOf, Shows, Fifo8.Contents, Fifo8.Slot, IrqSettled, ReceiverOk, TransmitterIdle, Held, Room, Taken, CanReceive;
      used := 0;
      ghost var l := Rx();
      CanReceiveMeansRoom();
      HostTakeNone(l);
      assert input[..0] == [];
      while CanReceive() > 0 && used < |input|
        invariant Valid() && used <= |input| && used <= Room(l)
        invariant Rx() == HostTake(l, input[..used])
        invariant (Rx().fifo ==> Rx().itl <= FIFO_LENGTH) && Room(Rx()) == Room(l) - used && (CanReceive() > 0 <==> Room(Rx()) > 0)
        decreases |input| - used
      {
        RoomStep(Rx(), input[used]);
        HostTakeStep(l, input[..used], input[used]);
        TakeFromHost(input[used]);
        CanReceiveMeansRoom();
        used := used + 1;
        assert input[..used] == input[..used - 1] + [input[used - 1]];
      }
      TakenPrefix(l, input, used);
    }

    lemma CanReceiveMeansRoom()
      requires Valid()
      ensures CanReceive() > 0 <==> Room(Rx()) > 0
      ensures Rx().fifo ==> Rx().itl <= FIFO_LENGTH
    {
      hide CauseOf, Shows, Fifo8.Slot, IrqSettled;
    }
  }
}
