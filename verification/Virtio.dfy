/**
 The virtio block device: handle_request over a split virtqueue in guest RAM (section 2.6 of
 VIRTIO 1.1), with 16-bit free-running indices.
 */
module Virtio {
  import opened Wrappers
  import opened Pages
  import opened LittleEndian

  const INDEX: nat := 0x1_0000
  const T_IN: nat := 0
  const T_OUT: nat := 1

  /** Ring size and the guest addresses of the three parts of the queue. */
  datatype Queue = Queue(num: nat, desc: nat, avail: nat, used: nat)

  datatype Request = Request(head: nat, header: nat, kind: nat, sector: nat, data: nat, len: nat, status: nat, chained: bool)

  /** Guest RAM, the disk file, the device's place in the available ring, and its byte counters. */
  datatype State = State(ram: seq<Byte>, disk: seq<Byte>, cur: nat, bytesRead: nat, bytesWritten: nat)

  // ---- Memory ------------------------------------------------------------------------------

  function Load(ram: seq<Byte>, a: nat, n: nat): nat {
    if a + n <= |ram| then LeValue(ram[a..a + n]) else 0
  }

  function Splice(ram: seq<Byte>, a: nat, bytes: seq<Byte>): (r: seq<Byte>)
    requires a + |bytes| <= |ram|
    ensures |r| == |ram|
  {
    ram[..a] + bytes + ram[a + |bytes|..]
  }

  predicate Apart(a: nat, n: nat, b: nat, m: nat) { a + n <= b || b + m <= a }

  lemma SpliceKeeps(ram: seq<Byte>, w: nat, bytes: seq<Byte>, a: nat, n: nat)
    requires w + |bytes| <= |ram| && a + n <= |ram| && Apart(w, |bytes|, a, n)
    ensures Splice(ram, w, bytes)[a..a + n] == ram[a..a + n]
  {
  }

  lemma SpliceRead(ram: seq<Byte>, w: nat, bytes: seq<Byte>)
    requires w + |bytes| <= |ram|
    ensures Splice(ram, w, bytes)[w..w + |bytes|] == bytes
  {
  }

  // ---- Reading a request -----------------------------------------------------------------------

  /** A power of two that the index range is a multiple of, and tables inside RAM. */
  predicate GoodQueue(q: Queue, size: nat) {
    && q.num > 0 && INDEX % q.num == 0
    && q.desc + 16 * q.num <= size && q.avail + 4 + 2 * q.num <= size && q.used + 4 + 8 * q.num <= size
  }

  function AvailIndex(ram: seq<Byte>, q: Queue): nat { Load(ram, q.avail + 2, 2) }

  function UsedIndex(ram: seq<Byte>, q: Queue): nat { Load(ram, q.used + 2, 2) }

  function DescAddr(ram: seq<Byte>, q: Queue, d: nat): nat { Load(ram, q.desc + 16 * d, 8) }

  function DescLen(ram: seq<Byte>, q: Queue, d: nat): nat { Load(ram, q.desc + 16 * d + 8, 4) }

  function DescNext(ram: seq<Byte>, q: Queue, d: nat): nat { Load(ram, q.desc + 16 * d + 14, 2) }

  /** The request whose head the available ring holds for index cur: header, data and status descriptors in a row. */
  function Parse(ram: seq<Byte>, q: Queue, cur: nat): Request
    requires q.num > 0
  {
    var head := Load(ram, q.avail + 4 + 2 * (cur % q.num), 2);
    var d1 := (head + 1) % q.num;
    var d2 := (d1 + 1) % q.num;
    var header := DescAddr(ram, q, head);
    Request(head, header, Load(ram, header, 4), Load(ram, header + 8, 8), DescAddr(ram, q, d1), DescLen(ram, q, d1),
            DescAddr(ram, q, d2), DescNext(ram, q, head) == d1 && DescNext(ram, q, d1) == d2)
  }

  /** The requests that wait between index cur and the driver's index. */
  function Waiting(ram: seq<Byte>, q: Queue, cur: nat): seq<Request>
    requires q.num > 0
  {
    seq((AvailIndex(ram, q) - cur) % INDEX, i requires 0 <= i < (AvailIndex(ram, q) - cur) % INDEX => Parse(ram, q, (cur + i) % INDEX))
  }

  predicate InBounds(q: Queue, r: Request, size: nat) {
    r.head < q.num && r.header + 16 <= size && r.data + r.len <= size && r.status < size
  }

  // ---- What a request does -----------------------------------------------------------------------

  /** Publishing: the used element in the slot of the available index, status 0, then the used index. */
  function Publish(q: Queue, s: State, r: Request): (s': State)
    requires GoodQueue(q, |s.ram|) && InBounds(q, r, |s.ram|)
    ensures |s'.ram| == |s.ram|
  {
    SlotInside(q, s.cur);
    var next := (s.cur + 1) % INDEX;
    var ram1 := Splice(s.ram, q.used + 4 + 8 * (s.cur % q.num), Le(r.head, 4) + Le(r.len, 4));
    var ram2 := Splice(ram1, r.status, [0]);
    s.(ram := Splice(ram2, q.used + 2, Le(next, 2)), cur := next)
  }

  lemma SlotInside(q: Queue, cur: nat)
    requires q.num > 0
    ensures 0 <= cur % q.num < q.num && 8 * (cur % q.num) + 8 <= 8 * q.num
  {
  }

  function Offset(r: Request): nat { r.sector * 512 % 0x1_0000_0000_0000_0000 }

  /** A write past the end of the file extends it. */
  function DiskWrite(disk: seq<Byte>, off: nat, bytes: seq<Byte>): seq<Byte> {
    var d := if |disk| < off then disk + Zeros(off - |disk|) else disk;
    d[..off] + bytes + if off + |bytes| < |d| then d[off + |bytes|..] else []
  }

  /** Moving the data; None where the original exits: an empty transfer or a read past the end of the file. */
  function Transfer(s: State, r: Request): (t: Option<State>)
    requires r.data + r.len <= |s.ram|
    ensures t.Some? ==> |t.value.ram| == |s.ram| && t.value.cur == s.cur
  {
    if r.kind == T_IN then
      if r.len == 0 || Offset(r) + r.len > |s.disk| then None
      else Some(s.(ram := Splice(s.ram, r.data, s.disk[Offset(r)..Offset(r) + r.len]), bytesRead := s.bytesRead + r.len))
    else if r.kind == T_OUT then
      if r.len == 0 then None
      else Some(s.(disk := DiskWrite(s.disk, Offset(r), s.ram[r.data..r.data + r.len]), bytesWritten := s.bytesWritten + r.len))
    else Some(s)
  }

  /** The requests served one after the other; None where the original exits. */
  function Serve(q: Queue, s: State, reqs: seq<Request>): (t: Option<State>)
    requires GoodQueue(q, |s.ram|) && forall i :: 0 <= i < |reqs| ==> InBounds(q, reqs[i], |s.ram|)
    ensures t.Some? ==> |t.value.ram| == |s.ram|
    decreases |reqs|
  {
    if reqs == [] then Some(s)
    else if !reqs[0].chained then None
    else
      match Transfer(Publish(q, s, reqs[0]), reqs[0])
      case None => None
      case Some(s') => Serve(q, s', reqs[1..])
  }

  // ---- Requests that do not write over each other's descriptors --------------------------------------

  /** [w, w + n) misses everything that the device reads to find its work. */
  predicate Clear(q: Queue, w: nat, n: nat, reqs: seq<Request>) {
    && Apart(w, n, q.desc, 16 * q.num) && Apart(w, n, q.avail, 4 + 2 * q.num)
    && forall j :: 0 <= j < |reqs| ==> Apart(w, n, reqs[j].header, 16)
  }

  predicate Isolated(q: Queue, reqs: seq<Request>, size: nat) {
    && Clear(q, q.used, 4 + 8 * q.num, reqs)
    && forall i :: 0 <= i < |reqs| ==>
         && InBounds(q, reqs[i], size) && Clear(q, reqs[i].status, 1, reqs)
         && (reqs[i].kind == T_IN ==> Clear(q, reqs[i].data, reqs[i].len, reqs))
  }

  ghost predicate SameControl(q: Queue, reqs: seq<Request>, a: seq<Byte>, b: seq<Byte>) {
    && |a| == |b| && GoodQueue(q, |a|)
    && a[q.desc..q.desc + 16 * q.num] == b[q.desc..q.desc + 16 * q.num]
    && a[q.avail..q.avail + 4 + 2 * q.num] == b[q.avail..q.avail + 4 + 2 * q.num]
    && forall j :: 0 <= j < |reqs| && reqs[j].header + 16 <= |a| ==>
         a[reqs[j].header..reqs[j].header + 16] == b[reqs[j].header..reqs[j].header + 16]
  }

  lemma ClearSplice(q: Queue, reqs: seq<Request>, ram: seq<Byte>, w: nat, bytes: seq<Byte>)
    requires GoodQueue(q, |ram|) && w + |bytes| <= |ram| && Clear(q, w, |bytes|, reqs)
    ensures SameControl(q, reqs, ram, Splice(ram, w, bytes))
  {
    hide Splice;
    SpliceKeeps(ram, w, bytes, q.desc, 16 * q.num);
    SpliceKeeps(ram, w, bytes, q.avail, 4 + 2 * q.num);
    forall j | 0 <= j < |reqs| && reqs[j].header + 16 <= |ram|
      ensures Splice(ram, w, bytes)[reqs[j].header..reqs[j].header + 16] == ram[reqs[j].header..reqs[j].header + 16]
    {
      SpliceKeeps(ram, w, bytes, reqs[j].header, 16);
    }
  }

  /** A part of a region that agrees agrees. */
  lemma SubLoad(a: seq<Byte>, b: seq<Byte>, base: nat, n: nat, at: nat, k: nat)
    requires |a| == |b| && base + n <= |a| && a[base..base + n] == b[base..base + n]
    requires base <= at && at + k <= base + n
    ensures Load(a, at, k) == Load(b, at, k)
  {
    SubSlice(a, base, n, at - base, k);
    SubSlice(b, base, n, at - base, k);
  }

  lemma SubSlice(a: seq<Byte>, base: nat, n: nat, lo: nat, k: nat)
    requires base + n <= |a| && lo + k <= n
    ensures a[base + lo..base + lo + k] == a[base..base + n][lo..lo + k]
  {
    var u, v := a[base + lo..base + lo + k], a[base..base + n][lo..lo + k];
    forall i | 0 <= i < k
      ensures u[i] == v[i]
    {
      assert u[i] == a[base + lo + i] && a[base..base + n][lo + i] == a[base + (lo + i)];
    }
  }

  /** The same control bytes hold the same request. */
  lemma SameParse(q: Queue, reqs: seq<Request>, a: seq<Byte>, b: seq<Byte>, cur: nat, i: nat)
    requires SameControl(q, reqs, a, b) && i < |reqs| && reqs[i] == Parse(a, q, cur) && InBounds(q, reqs[i], |a|)
    ensures Parse(b, q, cur) == reqs[i]
  {
    hide Load;
    var slot := cur % q.num;
    SlotInside(q, cur);
    SubLoad(a, b, q.avail, 4 + 2 * q.num, q.avail + 4 + 2 * slot, 2);
    var head, header := reqs[i].head, reqs[i].header;
    SameDesc(q, reqs, a, b, head);
    SameDesc(q, reqs, a, b, (head + 1) % q.num);
    SameDesc(q, reqs, a, b, ((head + 1) % q.num + 1) % q.num);
    SubLoad(a, b, header, 16, header, 4);
    SubLoad(a, b, header, 16, header + 8, 8);
  }

  lemma SameDesc(q: Queue, reqs: seq<Request>, a: seq<Byte>, b: seq<Byte>, d: nat)
    requires SameControl(q, reqs, a, b) && d < q.num
    ensures DescAddr(a, q, d) == DescAddr(b, q, d) && DescLen(a, q, d) == DescLen(b, q, d) && DescNext(a, q, d) == DescNext(b, q, d)
  {
    hide Load;
    var at := q.desc + 16 * d;
    SubLoad(a, b, q.desc, 16 * q.num, at, 8);
    SubLoad(a, b, q.desc, 16 * q.num, at + 8, 4);
    SubLoad(a, b, q.desc, 16 * q.num, at + 14, 2);
  }

  lemma ControlTrans(q: Queue, reqs: seq<Request>, a: seq<Byte>, b: seq<Byte>, c: seq<Byte>)
    requires SameControl(q, reqs, a, b) && SameControl(q, reqs, b, c)
    ensures SameControl(q, reqs, a, c)
  {
  }

  lemma PublishKeepsControl(q: Queue, reqs: seq<Request>, s: State, i: nat)
    requires GoodQueue(q, |s.ram|) && Isolated(q, reqs, |s.ram|) && i < |reqs|
    ensures SameControl(q, reqs, s.ram, Publish(q, s, reqs[i]).ram)
  {
    hide Splice, SameControl, Clear, Le;
    var r, next := reqs[i], (s.cur + 1) % INDEX;
    SlotInside(q, s.cur);
    var elem := Le(r.head, 4) + Le(r.len, 4);
    var at := q.used + 4 + 8 * (s.cur % q.num);
    UsedClear(q, reqs, at, 8);
    UsedClear(q, reqs, q.used + 2, 2);
    ThreeSplices(q, reqs, s.ram, at, elem, r.status, [0], q.used + 2, Le(next, 2));
  }

  lemma ThreeSplices(q: Queue, reqs: seq<Request>, ram: seq<Byte>, a: nat, x: seq<Byte>, b: nat, y: seq<Byte>, c: nat, z: seq<Byte>)
    requires GoodQueue(q, |ram|) && a + |x| <= |ram| && b + |y| <= |ram| && c + |z| <= |ram|
    requires Clear(q, a, |x|, reqs) && Clear(q, b, |y|, reqs) && Clear(q, c, |z|, reqs)
    ensures SameControl(q, reqs, ram, Splice(Splice(Splice(ram, a, x), b, y), c, z))
  {
    hide Splice, SameControl, Clear;
    var ram1 := Splice(ram, a, x);
    var ram2 := Splice(ram1, b, y);
    ClearSplice(q, reqs, ram, a, x);
    ClearSplice(q, reqs, ram1, b, y);
    ClearSplice(q, reqs, ram2, c, z);
    ControlTrans(q, reqs, ram, ram1, ram2);
    ControlTrans(q, reqs, ram, ram2, Splice(ram2, c, z));
  }

  lemma UsedClear(q: Queue, reqs: seq<Request>, w: nat, n: nat)
    requires Clear(q, q.used, 4 + 8 * q.num, reqs) && q.used <= w && w + n <= q.used + 4 + 8 * q.num
    ensures Clear(q, w, n, reqs)
  {
  }

  lemma TransferKeepsControl(q: Queue, reqs: seq<Request>, s: State, i: nat)
    requires GoodQueue(q, |s.ram|) && Isolated(q, reqs, |s.ram|) && i < |reqs| && Transfer(s, reqs[i]).Some?
    ensures SameControl(q, reqs, s.ram, Transfer(s, reqs[i]).value.ram)
  {
    hide Splice, SameControl;
    var r := reqs[i];
    if r.kind == T_IN {
      ClearSplice(q, reqs, s.ram, r.data, s.disk[Offset(r)..Offset(r) + r.len]);
    } else {
      ControlSame(q, reqs, s.ram);
    }
  }

  lemma ControlSame(q: Queue, reqs: seq<Request>, a: seq<Byte>)
    requires GoodQueue(q, |a|)
    ensures SameControl(q, reqs, a, a)
  {
  }

  // ---- The device ----------------------------------------------------------------------------------

  class VirtioBlk {
    const ram: array<Byte>
    var disk: seq<Byte>
    var queueNum: nat
    var queueDesc: nat
    var queueAvail: nat
    var queueUsed: nat
    var availCurrent: nat
    var bytesRead: nat
    var bytesWritten: nat

    constructor (ram: array<Byte>, disk: seq<Byte>)
      ensures this.ram == ram && this.disk == disk && availCurrent == 0 && bytesRead == 0 && bytesWritten == 0
    {
      this.ram, this.disk := ram, disk;
      queueNum, queueDesc, queueAvail, queueUsed, availCurrent, bytesRead, bytesWritten := 0, 0, 0, 0, 0, 0, 0;
    }

    function Ring(): Queue
      reads this
    {
      Queue(queueNum, queueDesc, queueAvail, queueUsed)
    }

    ghost function Abs(): State
      reads this, ram
    {
      State(ram[..], disk, availCurrent, bytesRead, bytesWritten)
    }

    method Store(a: nat, bytes: seq<Byte>)
      requires a + |bytes| <= ram.Length
      modifies ram
      ensures ram[..] == Splice(old(ram[..]), a, bytes)
    {
      forall i | 0 <= i < |bytes| {
        ram[a + i] := bytes[i];
      }
    }

    /** The used element, the status byte and the used index, in that order. */
    method PublishUsed(head: nat, len: nat, status: nat, ghost r: Request)
      requires GoodQueue(Ring(), ram.Length) && InBounds(Ring(), r, ram.Length)
      requires head == r.head && len == r.len && status == r.status
      modifies this`availCurrent, ram
      ensures Abs() == Publish(Ring(), old(Abs()), r)
    {
      hide Splice, Le;
      SlotInside(Ring(), availCurrent);
      Store(queueUsed + 4 + 8 * (availCurrent % queueNum), Le(head, 4) + Le(len, 4));
      Store(status, [0]);
      Store(queueUsed + 2, Le((availCurrent + 1) % INDEX, 2));
      availCurrent := (availCurrent + 1) % INDEX;
    }

    /** The transfer, with the type and the sector read from the header now. */
    method MoveData(header: nat, data: nat, len: nat, ghost r: Request) returns (ok: bool)
      requires header == r.header && data == r.data && len == r.len && data + len <= ram.Length
      requires Load(ram[..], header, 4) == r.kind && Load(ram[..], header + 8, 8) == r.sector
      modifies this`disk, this`bytesRead, this`bytesWritten, ram
      ensures ok == Transfer(old(Abs()), r).Some?
      ensures ok ==> Abs() == Transfer(old(Abs()), r).value
    {
      hide Splice, Load, DiskWrite;
      var kind := Load(ram[..], header, 4);
      var off := Load(ram[..], header + 8, 8) * 512 % 0x1_0000_0000_0000_0000;
      if kind == T_IN {
        bytesRead := bytesRead + len;
        if len == 0 || off + len > |disk| {
          return false;
        }
        Store(data, disk[off..off + len]);
      } else if kind == T_OUT {
        bytesWritten := bytesWritten + len;
        if len == 0 {
          return false;
        }
        assert ram[data..data + len] == ram[..][data..data + len];
        disk := DiskWrite(disk, off, ram[data..data + len]);
      }
      ok := true;
    }

    /** One turn of the loop, for a request i of those waiting. */
    method ServeOne(ghost reqs: seq<Request>, ghost i: nat) returns (ok: bool)
      requires GoodQueue(Ring(), ram.Length) && Isolated(Ring(), reqs, ram.Length)
      requires i < |reqs| && reqs[i] == Parse(ram[..], Ring(), availCurrent)
      modifies this`availCurrent, this`disk, this`bytesRead, this`bytesWritten, ram
      ensures ok == (reqs[i].chained && Transfer(Publish(Ring(), old(Abs()), reqs[i]), reqs[i]).Some?)
      ensures ok ==> Abs() == Transfer(Publish(Ring(), old(Abs()), reqs[i]), reqs[i]).value
    {
      hide Load, Publish, Transfer, SameControl, Clear;
      ghost var r, q, s := reqs[i], Ring(), Abs();
      var head := Load(ram[..], queueAvail + 4 + 2 * (availCurrent % queueNum), 2);
      var header := DescAddr(ram[..], Ring(), head);
      if DescNext(ram[..], Ring(), head) != (head + 1) % queueNum {
        return false;
      }
      var d := (head + 1) % queueNum;
      var len := DescLen(ram[..], Ring(), d);
      var data := DescAddr(ram[..], Ring(), d);
      if DescNext(ram[..], Ring(), d) != (d + 1) % queueNum {
        return false;
      }
      d := (d + 1) % queueNum;
      var status := DescAddr(ram[..], Ring(), d);
      PublishKeepsControl(q, reqs, s, i);
      SameHeader(q, reqs, s.ram, Publish(q, s, r).ram, i);
      PublishUsed(head, len, status, r);
      ok := MoveData(header, data, len, r);
    }

    /** handle_request: the waiting requests are served, each once and in ring order. */
    method HandleRequest() returns (ok: bool)
      requires GoodQueue(Ring(), ram.Length) && availCurrent < INDEX
      requires Isolated(Ring(), Waiting(ram[..], Ring(), availCurrent), ram.Length)
      modifies this`availCurrent, this`disk, this`bytesRead, this`bytesWritten, ram
      ensures ok == Serve(Ring(), old(Abs()), Waiting(old(ram[..]), Ring(), old(availCurrent))).Some?
      ensures ok ==> Abs() == Serve(Ring(), old(Abs()), Waiting(old(ram[..]), Ring(), old(availCurrent))).value
    {
      hide Load, Publish, Transfer, Clear, Parse, Serve, Progress, Waiting, Isolated;
      ghost var q, s0 := Ring(), Abs();
      ghost var reqs := Waiting(ram[..], q, availCurrent);
      ghost var i: nat := 0;
      ProgressAtFirst(q, s0, reqs);
      while availCurrent != AvailIndex(ram[..], Ring())
        invariant Ring() == q && 0 <= i <= |reqs| && Progress(q, s0, reqs, i, Abs())
        decreases |reqs| - i
      {
        ghost var s := Abs();
        NextWaits(q, s0, reqs, i, s);
        ok := ServeOne(reqs, i);
        ProgressStep(q, s0, reqs, i, s);
        if !ok {
          return;
        }
        i := i + 1;
      }
      ProgressDone(q, s0, reqs, i, Abs());
      ok := true;
    }
  }

  /** After i of the requests that waited in s0, the rest remain to be served from s. */
  ghost predicate Progress(q: Queue, s0: State, reqs: seq<Request>, i: nat, s: State) {
    && GoodQueue(q, |s0.ram|) && s0.cur < INDEX && i <= |reqs|
    && reqs == Waiting(s0.ram, q, s0.cur) && Isolated(q, reqs, |s0.ram|)
    && s.cur == (s0.cur + i) % INDEX && SameControl(q, reqs, s0.ram, s.ram)
    && Serve(q, s, reqs[i..]) == Serve(q, s0, reqs)
  }

  lemma ProgressAtFirst(q: Queue, s: State, reqs: seq<Request>)
    requires GoodQueue(q, |s.ram|) && s.cur < INDEX && reqs == Waiting(s.ram, q, s.cur) && Isolated(q, reqs, |s.ram|)
    ensures Progress(q, s, reqs, 0, s)
  {
    assert reqs[0..] == reqs;
  }

  /** While the indices differ, the next entry of the ring is request i as it was at the start. */
  lemma NextWaits(q: Queue, s0: State, reqs: seq<Request>, i: nat, s: State)
    requires Progress(q, s0, reqs, i, s) && s.cur != AvailIndex(s.ram, q)
    ensures i < |reqs| && reqs[i] == Parse(s.ram, q, s.cur) && Isolated(q, reqs, |s.ram|) && GoodQueue(q, |s.ram|)
  {
    hide Parse, Load, SameControl, Serve, Clear;
    assert |s.ram| == |s0.ram| by { SameSize(q, reqs, s0.ram, s.ram); }
    SameIndex(q, reqs, s0.ram, s.ram);
    IndexBound(s0.ram, q);
    assert i < |reqs|;
    SameParse(q, reqs, s0.ram, s.ram, s.cur, i);
  }

  lemma SameSize(q: Queue, reqs: seq<Request>, a: seq<Byte>, b: seq<Byte>)
    requires SameControl(q, reqs, a, b)
    ensures |a| == |b|
  {
  }

  lemma ProgressStep(q: Queue, s0: State, reqs: seq<Request>, i: nat, s: State)
    requires Progress(q, s0, reqs, i, s) && i < |reqs| && GoodQueue(q, |s.ram|) && Isolated(q, reqs, |s.ram|)
    ensures var r := reqs[i];
            var t := Transfer(Publish(q, s, r), r);
            if r.chained && t.Some? then Progress(q, s0, reqs, i + 1, t.value) else Serve(q, s0, reqs).None?
  {
    hide SameControl, Serve, Transfer, Publish, Waiting, Clear;
    var r := reqs[i];
    ServeStep(q, s, reqs[i..]);
    assert reqs[i..][0] == r && reqs[i..][1..] == reqs[i + 1..];
    if r.chained && Transfer(Publish(q, s, r), r).Some? {
      StepKeepsControl(q, reqs, s0.ram, s, i);
      IndexNext(s0.cur, i);
    }
  }

  lemma IndexNext(c: nat, i: nat)
    ensures ((c + i) % INDEX + 1) % INDEX == (c + (i + 1)) % INDEX
  {
  }

  lemma StepKeepsControl(q: Queue, reqs: seq<Request>, ram0: seq<Byte>, s: State, i: nat)
    requires i < |reqs| && GoodQueue(q, |s.ram|) && Isolated(q, reqs, |s.ram|) && SameControl(q, reqs, ram0, s.ram)
    requires Transfer(Publish(q, s, reqs[i]), reqs[i]).Some?
    ensures var s' := Transfer(Publish(q, s, reqs[i]), reqs[i]).value;
            SameControl(q, reqs, ram0, s'.ram) && s'.cur == (s.cur + 1) % INDEX
  {
    hide SameControl, Transfer, Clear, Splice;
    var p := Publish(q, s, reqs[i]);
    assert p.cur == (s.cur + 1) % INDEX;
    PublishKeepsControl(q, reqs, s, i);
    TransferKeepsControl(q, reqs, p, i);
    ControlTrans(q, reqs, ram0, s.ram, p.ram);
    ControlTrans(q, reqs, ram0, p.ram, Transfer(p, reqs[i]).value.ram);
  }

  lemma ProgressDone(q: Queue, s0: State, reqs: seq<Request>, i: nat, s: State)
    requires Progress(q, s0, reqs, i, s) && s.cur == AvailIndex(s.ram, q)
    ensures Serve(q, s0, reqs) == Some(s)
  {
    hide Parse, Load, SameControl, Serve, Clear;
    SameIndex(q, reqs, s0.ram, s.ram);
    IndexBound(s0.ram, q);
    assert i == |reqs|;
    SameSize(q, reqs, s0.ram, s.ram);
    ServeNone(q, s);
    assert reqs[i..] == [];
  }

  lemma SameHeader(q: Queue, reqs: seq<Request>, a: seq<Byte>, b: seq<Byte>, i: nat)
    requires SameControl(q, reqs, a, b) && i < |reqs| && InBounds(q, reqs[i], |a|)
    ensures Load(b, reqs[i].header, 4) == Load(a, reqs[i].header, 4)
    ensures Load(b, reqs[i].header + 8, 8) == Load(a, reqs[i].header + 8, 8)
  {
    hide Load;
    SubLoad(a, b, reqs[i].header, 16, reqs[i].header, 4);
    SubLoad(a, b, reqs[i].header, 16, reqs[i].header + 8, 8);
  }

  lemma SameIndex(q: Queue, reqs: seq<Request>, a: seq<Byte>, b: seq<Byte>)
    requires SameControl(q, reqs, a, b)
    ensures AvailIndex(a, q) == AvailIndex(b, q)
  {
    SubLoad(a, b, q.avail, 4 + 2 * q.num, q.avail + 2, 2);
  }

  lemma IndexBound(ram: seq<Byte>, q: Queue)
    ensures AvailIndex(ram, q) < INDEX
  {
    if q.avail + 4 <= |ram| { LeBound(ram[q.avail + 2..q.avail + 4]); }
  }

  lemma ServeStep(q: Queue, s: State, reqs: seq<Request>)
    requires GoodQueue(q, |s.ram|) && reqs != [] && forall i :: 0 <= i < |reqs| ==> InBounds(q, reqs[i], |s.ram|)
    ensures Serve(q, s, reqs) ==
            if reqs[0].chained && Transfer(Publish(q, s, reqs[0]), reqs[0]).Some?
            then Serve(q, Transfer(Publish(q, s, reqs[0]), reqs[0]).value, reqs[1..]) else None
  {
  }

  lemma ServeNone(q: Queue, s: State)
    requires GoodQueue(q, |s.ram|)
    ensures Serve(q, s, []) == Some(s)
  {
  }
}
