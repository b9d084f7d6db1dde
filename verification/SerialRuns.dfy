/**
 Runs of the UART: any interleaving of guest register accesses and host input.  The
 device never leaves its invariant, and its byte streams are those of the line.
 */
module SerialRuns {
  import opened Fifo
  import opened Serial
  import opened SerialLaws

  datatype Op =
    | WriteOp(addr: nat, val: bv16, byteSized: bool)
    | ReadOp(addr: nat)
    | HostOp(input: seq<Octet>)

  // ---- The line over a run ---------------------------------------------------------------

  function LineStep(l: Line, op: Op): Line {
    match op
    case WriteOp(addr, val, byteSized) => LineWrite(l, addr % 8, val, byteSized)
    case ReadOp(addr) => LineRead(l, addr % 8)
    case HostOp(input) => l.(rx := HostTake(l.rx, Taken(l.rx, input)))
  }

  /** The data byte a read delivers, if the line holds one. */
  function Delivered(l: Line, op: Op): seq<Octet> {
    if op.ReadOp? && op.addr % 8 == 0 && !l.Dlab() && l.rx.held != [] then [l.rx.held[0]] else []
  }

  function TakenBy(l: Line, op: Op): seq<Octet> { if op.HostOp? then Taken(l.rx, op.input) else [] }

  function RunLine(l: Line, ops: seq<Op>): Line
    decreases |ops|
  {
    if ops == [] then l else RunLine(LineStep(l, ops[0]), ops[1..])
  }

  function RunDelivered(l: Line, ops: seq<Op>): seq<Octet>
    decreases |ops|
  {
    if ops == [] then [] else Delivered(l, ops[0]) + RunDelivered(LineStep(l, ops[0]), ops[1..])
  }

  function RunTaken(l: Line, ops: seq<Op>): seq<Octet>
    decreases |ops|
  {
    if ops == [] then [] else TakenBy(l, ops[0]) + RunTaken(LineStep(l, ops[0]), ops[1..])
  }

  /** What every read of the run returns. */
  function RunValues(l: Line, ops: seq<Op>): seq<Octet>
    decreases |ops|
  {
    if ops == [] then []
    else (if ops[0].ReadOp? then [LineValue(l, ops[0].addr % 8)] else []) + RunValues(LineStep(l, ops[0]), ops[1..])
  }

  /** No step of the run starts in loopback. */
  predicate NeverLoops(l: Line, ops: seq<Op>)
    decreases |ops|
  {
    ops == [] || (!l.Loop() && NeverLoops(LineStep(l, ops[0]), ops[1..]))
  }

  /** Nothing of the run discards received bytes: no loopback, no FCR write that flushes. */
  predicate Lossless(l: Line, ops: seq<Op>)
    decreases |ops|
  {
    ops == [] || (KeepsReceived(l, ops[0]) && Lossless(LineStep(l, ops[0]), ops[1..]))
  }

  predicate KeepsReceived(l: Line, op: Op) {
    !l.Loop() &&
    (op.WriteOp? && op.addr % 8 == 2 ==>
       var v := LowByte(op.val); On(v, FCR_FE) == l.rx.fifo && !On(v, FCR_RFR))
  }

  /** The bytes a run writes to THR with DLAB and LOOP clear; only LCR and MCR writes matter beside them. */
  function Written(dlab: bool, loop: bool, ops: seq<Op>): seq<Octet>
    decreases |ops|
  {
    if ops == [] then []
    else if !ops[0].WriteOp? then Written(dlab, loop, ops[1..])
    else
      var v := LowByte(ops[0].val);
      match ops[0].addr % 8
      case 0 => (if dlab || loop then [] else [v]) + Written(dlab, loop, ops[1..])
      case 3 => Written(On(v, DLAB), loop, ops[1..])
      case 4 => Written(dlab, On(v, MCR_LOOP), ops[1..])
      case _ => Written(dlab, loop, ops[1..])
  }

  lemma McrLoop(v: Octet)
    ensures On(ModemControl(v), MCR_LOOP) == On(v, MCR_LOOP)
  {
  }

  /** The output stream is exactly the bytes written to THR with DLAB and LOOP clear, in order. */
  lemma {:induction false} OutputIsWritten(l: Line, ops: seq<Op>)
    ensures RunLine(l, ops).sent == l.sent + Written(l.Dlab(), l.Loop(), ops)
    decreases |ops|
  {
    hide On, LowByte, LineStep;
    if ops != [] {
      var op, rest := ops[0], ops[1..];
      var l' := LineStep(l, op);
      OutputIsWritten(l', rest);
      StepSends(l, op);
      var v := if op.WriteOp? then LowByte(op.val) else 0;
      assert l.sent + ([v] + Written(l.Dlab(), l.Loop(), rest)) == (l.sent + [v]) + Written(l.Dlab(), l.Loop(), rest);
    }
  }

  /** What one step sends, and what it does to the two mode bits that decide. */
  lemma StepSends(l: Line, op: Op)
    ensures var l', v := LineStep(l, op), if op.WriteOp? then LowByte(op.val) else 0;
            && l'.Dlab() == (if op.WriteOp? && op.addr % 8 == 3 then On(v, DLAB) else l.Dlab())
            && l'.Loop() == (if op.WriteOp? && op.addr % 8 == 4 then On(v, MCR_LOOP) else l.Loop())
            && l'.sent == l.sent + (if op.WriteOp? && op.addr % 8 == 0 && !l.Dlab() && !l.Loop() then [v] else [])
  {
    hide On, LowByte, Taken, LineWrite, LineRead;
    match op
    case WriteOp(addr, val, byteSized) => WriteSends(l, addr % 8, val, byteSized);
    case ReadOp(addr) => ReadSends(l, addr % 8);
    case HostOp(_) =>
  }

  lemma WriteSends(l: Line, a: nat, val: bv16, byteSized: bool)
    ensures var l', v := LineWrite(l, a, val, byteSized), LowByte(val);
            && l'.Dlab() == (if a == 3 then On(v, DLAB) else l.Dlab())
            && l'.Loop() == (if a == 4 then On(v, MCR_LOOP) else l.Loop())
            && l'.sent == l.sent + (if a == 0 && !l.Dlab() && !l.Loop() then [v] else [])
  {
    hide On, LowByte, ModemControl, DividerBits, Arrived, Controlled, Polled, Enables, Changed;
    McrLoop(LowByte(val));
    assert l.sent + [] == l.sent;
  }

  lemma ReadSends(l: Line, a: nat)
    ensures LineRead(l, a).regs == l.regs && LineRead(l, a).sent == l.sent
  {
    hide On, ModemRead, ReceivedRead, LineCause;
  }

  /** Receive conservation: bytes delivered, then bytes still held, are the bytes held and taken, in order. */
  lemma {:induction false} ReceivedIsDelivered(l: Line, ops: seq<Op>)
    requires Lossless(l, ops)
    ensures l.rx.held + RunTaken(l, ops) == RunDelivered(l, ops) + RunLine(l, ops).rx.held
    decreases |ops|
  {
    hide On, Put, Itl, LowByte, Taken, Polled, LineCause, LineStep, Delivered, TakenBy, KeepsReceived;
    if ops != [] {
      var op, rest := ops[0], ops[1..];
      var l' := LineStep(l, op);
      ReceivedIsDelivered(l', rest);
      StepConserves(l, op);
      Regroup(l.rx.held, TakenBy(l, op), RunTaken(l', rest), Delivered(l, op), l'.rx.held,
              RunDelivered(l', rest), RunLine(l', rest).rx.held);
    }
  }

  lemma StepConserves(l: Line, op: Op)
    requires KeepsReceived(l, op)
    ensures l.rx.held + TakenBy(l, op) == Delivered(l, op) + LineStep(l, op).rx.held
  {
    hide On, LowByte, Taken, LineWrite, LineRead;
    match op
    case WriteOp(addr, val, byteSized) => WriteKeepsHeld(l, addr % 8, val, byteSized);
    case ReadOp(addr) => ReadTakesOne(l, addr % 8);
    case HostOp(_) =>
  }

  lemma WriteKeepsHeld(l: Line, a: nat, val: bv16, byteSized: bool)
    requires !l.Loop()
    ensures LineWrite(l, a, val, byteSized).rx.overrun == l.rx.overrun
    ensures (a == 2 ==> On(LowByte(val), FCR_FE) == l.rx.fifo && !On(LowByte(val), FCR_RFR))
            ==> LineWrite(l, a, val, byteSized).rx.held == l.rx.held
  {
    hide On, LowByte, DividerWritten, Stored, EnablesWritten, Controlled, Enables, Changed, Polled;
    EnablesFields(l, LowByte(val));
    ControlKeeps(l.rx, LowByte(val));
  }

  lemma ControlKeeps(rx: Receiver, v: Octet)
    ensures Controlled(rx, v).overrun == rx.overrun
    ensures On(v, FCR_FE) == rx.fifo && !On(v, FCR_RFR) ==> Controlled(rx, v).held == rx.held
  {
    hide On, Itl;
  }

  lemma ReadTakesOne(l: Line, a: nat)
    ensures l.rx.held == (if a == 0 && !l.Dlab() && l.rx.held != [] then [l.rx.held[0]] else []) + LineRead(l, a).rx.held
    ensures LineRead(l, a).rx.overrun ==> l.rx.overrun
  {
    hide On, ModemRead, LineCause;
  }

  /** Without loopback the receiver never overruns: the host is asked only for what there is room for. */
  lemma {:induction false} NoOverrun(l: Line, ops: seq<Op>)
    requires NeverLoops(l, ops) && !l.rx.overrun
    ensures !RunLine(l, ops).rx.overrun
    decreases |ops|
  {
    hide On, Taken, LineWrite, LineRead;
    if ops != [] {
      match ops[0] {
        case WriteOp(addr, val, byteSized) => WriteKeepsHeld(l, addr % 8, val, byteSized);
        case ReadOp(addr) => ReadTakesOne(l, addr % 8);
        case HostOp(_) =>
      }
      NoOverrun(LineStep(l, ops[0]), ops[1..]);
    }
  }

  lemma Regroup(held: seq<Octet>, t: seq<Octet>, ts: seq<Octet>, d: seq<Octet>, held': seq<Octet>, ds: seq<Octet>, last: seq<Octet>)
    requires held + t == d + held' && held' + ts == ds + last
    ensures held + (t + ts) == (d + ds) + last
  {
    assert held + (t + ts) == (held + t) + ts;
    assert (d + held') + ts == d + (held' + ts);
    assert d + (ds + last) == (d + ds) + last;
  }

  // ---- The device over a run -------------------------------------------------------------

  /** The interrupt line and the identification register are those of the line. */
  ghost predicate Interrupts(s: SerialState, l: Line)
    reads s
  {
    s.irq == (LineCause(l) != Nothing) && s.iir == CauseBits(LineCause(l), l.rx.fifo)
  }

  lemma ValidInterrupts(s: SerialState)
    requires s.Valid()
    ensures Interrupts(s, s.Abs())
  {
    hide On, Clean, High, CauseBits, CauseOf, LineCause, Shows, Code, FifoNibble, Fifo8.Contents, Fifo8.Slot;
    s.CauseIsLineCause();
    IirBits(s.iir, s.Cause(), On(s.fcr, FCR_FE));
  }

  /** One guest access or host poll. */
  method Perform(s: SerialState, op: Op) returns (values: seq<Octet>, delivered: seq<Octet>, taken: seq<Octet>)
    requires s.Valid()
    modifies s, s.recv, s.recv.data, s.xmit, s.xmit.data
    ensures s.Valid() && s.Abs() == LineStep(old(s.Abs()), op)
    ensures values == if op.ReadOp? then [LineValue(old(s.Abs()), op.addr % 8)] else []
    ensures delivered == Delivered(old(s.Abs()), op) && taken == TakenBy(old(s.Abs()), op)
  {
    hide On, LowByte, LineCause, Fifo8.Contents, SerialState.Held, SerialState.ReceiverOk, SerialState.IrqSettled,
      SerialState.TransmitterIdle, LineWrite, LineRead, Taken, HostTake, Polled, CauseValue, ModemValue, StatusValue, HighByte;
    values, delivered, taken := [], [], [];
    match op
    case WriteOp(addr, val, byteSized) =>
      s.IoWrite(addr, val, byteSized);
    case ReadOp(addr) =>
      var fetch := addr % 8 == 0 && !On(s.lcr, DLAB);
      var ready := s.DataReady();
      var ret := s.IoRead(addr);
      values := [ret];
      if fetch && ready {
        delivered := [ret];
      }
    case HostOp(input) =>
      var used := s.CheckIo(input);
      taken := input[..used];
  }

  /** Every run from a valid device, and so every prefix of it: the device stays valid, its registers, queues and pending
      flags are those of the line, every read returns what the line says, and the interrupt line and the identification
      register are the prioritised cause of the line. */
  method Drive(s: SerialState, ops: seq<Op>) returns (values: seq<Octet>, delivered: seq<Octet>, taken: seq<Octet>)
    requires s.Valid()
    modifies s, s.recv, s.recv.data, s.xmit, s.xmit.data
    ensures s.Valid() && s.Abs() == RunLine(old(s.Abs()), ops)
    ensures values == RunValues(old(s.Abs()), ops) && Interrupts(s, RunLine(old(s.Abs()), ops))
    ensures Reported(RunLine(old(s.Abs()), ops), s.iir, s.irq)
    ensures delivered == RunDelivered(old(s.Abs()), ops) && taken == RunTaken(old(s.Abs()), ops)
  {
    hide On, Clean, SerialState.ReceiverOk, SerialState.TransmitterIdle, SerialState.IrqSettled, SerialState.Held, LineStep,
      Delivered, TakenBy, LineValue, LineCause, Interrupts, Reported;
    ghost var start := s.Abs();
    values, delivered, taken := [], [], [];
    var i := 0;
    while i < |ops|
      invariant 0 <= i <= |ops| && s.Valid()
      invariant RunLine(s.Abs(), ops[i..]) == RunLine(start, ops)
      invariant values + RunValues(s.Abs(), ops[i..]) == RunValues(start, ops)
      invariant delivered + RunDelivered(s.Abs(), ops[i..]) == RunDelivered(start, ops)
      invariant taken + RunTaken(s.Abs(), ops[i..]) == RunTaken(start, ops)
    {
      assert ops[i..][0] == ops[i] && ops[i..][1..] == ops[i + 1..];
      var v, d, t := Perform(s, ops[i]);
      values, delivered, taken := values + v, delivered + d, taken + t;
      i := i + 1;
    }
    ValidInterrupts(s);
    InterruptsReported(s, RunLine(start, ops));
  }

  lemma InterruptsReported(s: SerialState, l: Line)
    requires Interrupts(s, l)
    ensures Reported(l, s.iir, s.irq)
  {
    hide LineCause, CauseBits, Reported;
    CauseReported(l);
  }

  /** From reset: what was sent, what was received, no overrun without loopback, and the interrupt. */
  method DriveFromReset(ops: seq<Op>) returns (s: SerialState, values: seq<Octet>, delivered: seq<Octet>, taken: seq<Octet>)
    ensures s.Valid() && values == RunValues(QUIET, ops) && Interrupts(s, RunLine(QUIET, ops)) && Reported(RunLine(QUIET, ops), s.iir, s.irq)
    ensures s.output == Written(false, false, ops)
    ensures Lossless(QUIET, ops) ==> taken == delivered + s.Held()
    ensures NeverLoops(QUIET, ops) ==> !On(s.lsr, LSR_OE)
  {
    hide LineStep, Delivered, TakenBy, Fifo8.Contents, CauseOf, LineCause, Shows, LineValue, Interrupts, Reported;
    s := new SerialState();
    values, delivered, taken := Drive(s, ops);
    OutputIsWritten(QUIET, ops);
    if Lossless(QUIET, ops) {
      ReceivedIsDelivered(QUIET, ops);
      assert QUIET.rx.held + taken == taken;
    }
    if NeverLoops(QUIET, ops) { NoOverrun(QUIET, ops); }
  }

  /** With both enabled, a received byte is reported before the empty holding register, which keeps pending. */
  lemma ReceivedFirst()
    ensures RunValues(QUIET, [WriteOp(1, 3, true), HostOp([0x41]), ReadOp(2), ReadOp(0), ReadOp(2), ReadOp(2)]) == [0x04, 0x41, 0x02, 0x01]
  {
    hide LineStep, LineValue;
    var armed := QUIET.(ier := 3, thrPending := true);
    var full := armed.(rx := armed.rx.(held := [0x41], rbr := 0x41));
    var empty := full.(rx := full.rx.(held := []));
    var done := empty.(thrPending := false);
    assert LineStep(QUIET, WriteOp(1, 3, true)) == armed by { Armed(); }
    assert LineStep(armed, HostOp([0x41])) == full by { Filled(armed); }
    assert LineValue(full, 2) == 0x04 && LineStep(full, ReadOp(2)) == full && LineValue(full, 0) == 0x41 by { Asking(full); }
    assert LineStep(full, ReadOp(0)) == empty by { TakenOut(full); }
    assert LineValue(empty, 2) == 0x02 && LineStep(empty, ReadOp(2)) == done && LineValue(done, 2) == 0x01 by { Holding(empty); }
    assert RunValues(done, [ReadOp(2)]) == [0x01];
    assert RunValues(empty, [ReadOp(2), ReadOp(2)]) == [0x02, 0x01];
    assert RunValues(full, [ReadOp(0), ReadOp(2), ReadOp(2)]) == [0x41, 0x02, 0x01];
    assert RunValues(full, [ReadOp(2), ReadOp(0), ReadOp(2), ReadOp(2)]) == [0x04, 0x41, 0x02, 0x01];
  }

  lemma Armed()
    ensures LineStep(QUIET, WriteOp(1, 3, true)) == QUIET.(ier := 3, thrPending := true)
  {
  }

  lemma Filled(l: Line)
    requires l == QUIET.(ier := 3, thrPending := true)
    ensures LineStep(l, HostOp([0x41])) == l.(rx := l.rx.(held := [0x41], rbr := 0x41))
  {
  }

  lemma Asking(l: Line)
    requires l.ier == 3 && l.rx == QUIET.rx.(held := [0x41], rbr := 0x41) && l.regs == QUIET.regs
    ensures LineValue(l, 2) == 0x04 && LineStep(l, ReadOp(2)) == l && LineValue(l, 0) == 0x41
  {
  }

  lemma TakenOut(l: Line)
    requires l.rx == QUIET.rx.(held := [0x41], rbr := 0x41) && l.regs == QUIET.regs
    ensures LineStep(l, ReadOp(0)) == l.(rx := l.rx.(held := []))
  {
  }

  lemma Holding(l: Line)
    requires l.ier == 3 && l.rx == QUIET.rx.(rbr := 0x41) && l.thrPending && l.msr == 0
    ensures LineValue(l, 2) == 0x02 && LineStep(l, ReadOp(2)) == l.(thrPending := false) && LineValue(l.(thrPending := false), 2) == 0x01
  {
  }
}
