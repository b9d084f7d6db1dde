/**
 What a guest finds after one notification: its requests completed in order on a plain block
 device, each in its own used slot.
 */
module VirtioResults {
  import W = Words
  import opened Wrappers
  import opened Pages
  import opened LittleEndian
  import opened Virtio
  import opened Disk

  // ---- Which bytes a request writes ------------------------------------------------------------

  function Slot(q: Queue, cur: nat): nat
    requires q.num > 0
  {
    q.used + 4 + 8 * (cur % q.num)
  }

  /** Serving r at index cur leaves [a, a + n) alone. */
  predicate Misses(q: Queue, cur: nat, r: Request, a: nat, n: nat)
    requires q.num > 0
  {
    && Apart(Slot(q, cur), 8, a, n) && Apart(r.status, 1, a, n) && Apart(q.used + 2, 2, a, n)
    && (r.kind == T_IN ==> Apart(r.data, r.len, a, n))
  }

  /** The status byte and the read buffer of r miss [a, a + n). */
  predicate BuffersMiss(r: Request, a: nat, n: nat) {
    Apart(r.status, 1, a, n) && (r.kind == T_IN ==> Apart(r.data, r.len, a, n))
  }

  /** Buffers are disjoint: from the used ring, and of different requests unless neither is written. */
  predicate Disjoint(q: Queue, reqs: seq<Request>) {
    && (forall i :: 0 <= i < |reqs| ==> Proper(q, reqs[i]))
    && forall i, j :: 0 <= i < |reqs| && 0 <= j < |reqs| && i != j ==>
         BuffersMiss(reqs[j], reqs[i].status, 1) && BuffersMiss(reqs[j], reqs[i].data, reqs[i].len)
  }

  predicate Proper(q: Queue, r: Request) {
    && Apart(r.status, 1, q.used, 4 + 8 * q.num) && Apart(r.data, r.len, q.used, 4 + 8 * q.num)
    && Apart(r.status, 1, r.data, r.len)
  }

  function Step(q: Queue, s: State, r: Request): Option<State>
    requires GoodQueue(q, |s.ram|) && InBounds(q, r, |s.ram|)
  {
    Transfer(Publish(q, s, r), r)
  }

  /** A region that a request misses is unchanged by serving it. */
  lemma StepKeeps(q: Queue, s: State, r: Request, a: nat, n: nat)
    requires GoodQueue(q, |s.ram|) && InBounds(q, r, |s.ram|) && a + n <= |s.ram| && Misses(q, s.cur, r, a, n)
    requires Step(q, s, r).Some?
    ensures Step(q, s, r).value.ram[a..a + n] == s.ram[a..a + n]
  {
    hide Splice, Le, DiskWrite;
    SlotInside(q, s.cur);
    var ram1 := Splice(s.ram, Slot(q, s.cur), Le(r.head, 4) + Le(r.len, 4));
    var ram2 := Splice(ram1, r.status, [0]);
    var ram3 := Splice(ram2, q.used + 2, Le((s.cur + 1) % INDEX, 2));
    SpliceKeeps(s.ram, Slot(q, s.cur), Le(r.head, 4) + Le(r.len, 4), a, n);
    SpliceKeeps(ram1, r.status, [0], a, n);
    SpliceKeeps(ram2, q.used + 2, Le((s.cur + 1) % INDEX, 2), a, n);
    if r.kind == T_IN {
      SpliceKeeps(ram3, r.data, s.disk[Offset(r)..Offset(r) + r.len], a, n);
    }
  }

  /** What serving a request leaves in memory. */
  lemma StepWrites(q: Queue, s: State, r: Request)
    requires GoodQueue(q, |s.ram|) && InBounds(q, r, |s.ram|) && Proper(q, r) && Step(q, s, r).Some?
    ensures var s' := Step(q, s, r).value;
            && Slot(q, s.cur) + 8 <= |s.ram| && s'.ram[Slot(q, s.cur)..Slot(q, s.cur) + 8] == Le(r.head, 4) + Le(r.len, 4)
            && s'.ram[r.status] == 0
            && s'.ram[q.used + 2..q.used + 4] == Le(s'.cur, 2) && s'.cur == (s.cur + 1) % INDEX
            && (r.kind == T_IN ==> Offset(r) + r.len <= |s.disk| && s'.ram[r.data..r.data + r.len] == s.disk[Offset(r)..Offset(r) + r.len])
  {
    hide Splice, Le, DiskWrite;
    SlotInside(q, s.cur);
    var slot, elem, idx := Slot(q, s.cur), Le(r.head, 4) + Le(r.len, 4), Le((s.cur + 1) % INDEX, 2);
    var ram1 := Splice(s.ram, slot, elem);
    var ram2 := Splice(ram1, r.status, [0]);
    var ram3 := Splice(ram2, q.used + 2, idx);
    PublishWrites(s.ram, slot, elem, r.status, q.used + 2, idx);
    if r.kind == T_IN {
      ReadOver(ram3, r.data, s.disk[Offset(r)..Offset(r) + r.len], slot, r.status, q.used + 2);
    }
  }

  /** The buffer of a read holds its bytes, and what was published stays. */
  lemma ReadOver(ram: seq<Byte>, data: nat, bytes: seq<Byte>, slot: nat, status: nat, at: nat)
    requires data + |bytes| <= |ram| && slot + 8 <= |ram| && status < |ram| && at + 2 <= |ram|
    requires Apart(data, |bytes|, slot, 8) && Apart(data, |bytes|, status, 1) && Apart(data, |bytes|, at, 2)
    ensures var ram' := Splice(ram, data, bytes);
            && ram'[data..data + |bytes|] == bytes && ram'[slot..slot + 8] == ram[slot..slot + 8]
            && ram'[status] == ram[status] && ram'[at..at + 2] == ram[at..at + 2]
  {
    hide Splice;
    SpliceRead(ram, data, bytes);
    SpliceKeeps(ram, data, bytes, slot, 8);
    SpliceKeeps(ram, data, bytes, status, 1);
    SpliceKeeps(ram, data, bytes, at, 2);
    OneByte(ram, Splice(ram, data, bytes), status);
  }

  lemma PublishWrites(ram: seq<Byte>, slot: nat, elem: seq<Byte>, status: nat, at: nat, idx: seq<Byte>)
    requires slot + |elem| <= |ram| && status < |ram| && at + |idx| <= |ram|
    requires Apart(status, 1, slot, |elem|) && Apart(at, |idx|, slot, |elem|) && Apart(at, |idx|, status, 1)
    ensures var ram3 := Splice(Splice(Splice(ram, slot, elem), status, [0]), at, idx);
            ram3[slot..slot + |elem|] == elem && ram3[status] == 0 && ram3[at..at + |idx|] == idx
  {
    hide Splice;
    var ram1 := Splice(ram, slot, elem);
    var ram2 := Splice(ram1, status, [0]);
    SpliceRead(ram, slot, elem);
    SpliceKeeps(ram1, status, [0], slot, |elem|);
    SpliceKeeps(ram2, at, idx, slot, |elem|);
    SpliceRead(ram1, status, [0]);
    SpliceKeeps(ram2, at, idx, status, 1);
    OneByte(ram2, Splice(ram2, at, idx), status);
    assert ram2[status..status + 1][0] == ram2[status];
    SpliceRead(ram2, at, idx);
  }

  lemma OneByte(a: seq<Byte>, b: seq<Byte>, i: nat)
    requires i < |a| == |b| && a[i..i + 1] == b[i..i + 1]
    ensures a[i] == b[i]
  {
    assert a[i..i + 1][0] == a[i] && b[i..i + 1][0] == b[i];
  }

  // ---- Ring slots --------------------------------------------------------------------------------

  /** The free-running index j requests after c. */
  function Index(c: nat, j: nat): nat { (c + j) % INDEX }

  lemma ModMod(x: nat, num: nat)
    requires num > 0 && INDEX % num == 0
    ensures x % INDEX % num == x % num
  {
    var k, m := x / INDEX, INDEX / num;
    assert INDEX == m * num;
    assert x == x % INDEX + k * m * num by { W.MulAssoc(k, m, num); }
    W.DivAddMul(x % INDEX, num, k * m);
  }

  /** Fewer than num requests apart, two free-running indices have different slots, across the 16-bit wrap too. */
  lemma SlotsDiffer(c: nat, d: nat, num: nat)
    requires num > 0 && INDEX % num == 0 && 0 < d < num
    ensures c % INDEX % num != (c + d) % INDEX % num
  {
    ModMod(c, num);
    ModMod(c + d, num);
    var r := c % num;
    if r + d < num {
      W.DivUnique(c + d, num, c / num, r + d);
    } else {
      assert (c / num + 1) * num == c / num * num + num;
      W.DivUnique(c + d, num, c / num + 1, r + d - num);
    }
  }

  lemma SlotsApart(q: Queue, x: nat, y: nat)
    requires q.num > 0 && x % q.num != y % q.num
    ensures Apart(Slot(q, x), 8, Slot(q, y), 8)
  {
  }

  // ---- A whole batch -------------------------------------------------------------------------------

  predicate Ready(q: Queue, s: State, reqs: seq<Request>) {
    && GoodQueue(q, |s.ram|) && s.cur < INDEX && (forall i :: 0 <= i < |reqs| ==> InBounds(q, reqs[i], |s.ram|))
  }

  lemma ServeFirst(q: Queue, s: State, reqs: seq<Request>) returns (s1: State)
    requires Ready(q, s, reqs) && reqs != [] && Serve(q, s, reqs).Some?
    ensures Step(q, s, reqs[0]) == Some(s1) && Ready(q, s1, reqs[1..]) && |s1.ram| == |s.ram|
    ensures s1.cur == Index(s.cur, 1) && Serve(q, s1, reqs[1..]) == Serve(q, s, reqs)
  {
    hide Transfer, Splice, Le;
    s1 := Step(q, s, reqs[0]).value;
  }

  /** A region that every request misses is unchanged by serving them all. */
  lemma {:induction false} ServeKeeps(q: Queue, s: State, reqs: seq<Request>, a: nat, n: nat)
    requires Ready(q, s, reqs) && Serve(q, s, reqs).Some? && a + n <= |s.ram|
    requires forall j :: 0 <= j < |reqs| ==> Misses(q, Index(s.cur, j), reqs[j], a, n)
    ensures Serve(q, s, reqs).value.ram[a..a + n] == s.ram[a..a + n]
    decreases |reqs|
  {
    hide Misses, Step, Ready, GoodQueue, InBounds, Index;
    if reqs == [] {
      ServeEmpty(q, s);
    } else {
      hide Serve;
      var s1 := ServeFirst(q, s, reqs);
      ReadyFacts(q, s, reqs);
      IndexNextBy(s.cur, 0);
      assert Misses(q, Index(s.cur, 0), reqs[0], a, n);
      StepKeeps(q, s, reqs[0], a, n);
      forall j | 0 <= j < |reqs[1..]|
        ensures Misses(q, Index(s1.cur, j), reqs[1..][j], a, n)
      {
        assert Misses(q, Index(s.cur, j + 1), reqs[j + 1], a, n);
        IndexNextBy(s.cur, j);
      }
      ServeKeeps(q, s1, reqs[1..], a, n);
    }
  }

  lemma ServeEmpty(q: Queue, s: State)
    requires Ready(q, s, [])
    ensures Serve(q, s, []) == Some(s)
  {
  }

  lemma ReadyFacts(q: Queue, s: State, reqs: seq<Request>)
    requires Ready(q, s, reqs)
    ensures GoodQueue(q, |s.ram|) && q.num > 0 && q.used + 4 <= |s.ram| && s.cur < INDEX
    ensures forall i :: 0 <= i < |reqs| ==> InBounds(q, reqs[i], |s.ram|)
  {
  }

  lemma IndexNextBy(c: nat, j: nat)
    ensures Index(Index(c, 1), j) == Index(c, j + 1)
    ensures c < INDEX ==> Index(c, 0) == c
  {
  }

  lemma DisjointTail(q: Queue, reqs: seq<Request>)
    requires Disjoint(q, reqs) && reqs != []
    ensures Disjoint(q, reqs[1..])
  {
    hide BuffersMiss, Proper;
    var t := reqs[1..];
    assert forall i :: 0 <= i < |t| ==> t[i] == reqs[i + 1];
  }

  /** The later requests of a batch miss the used element, the status byte and the buffer of the first. */
  lemma LaterMiss(q: Queue, size: nat, cur: nat, reqs: seq<Request>, j: nat)
    requires GoodQueue(q, size) && cur < INDEX && Disjoint(q, reqs) && 0 < j < |reqs| <= q.num
    ensures Misses(q, Index(cur, j), reqs[j], Slot(q, cur), 8)
    ensures Misses(q, Index(cur, j), reqs[j], reqs[0].status, 1)
    ensures Misses(q, Index(cur, j), reqs[j], reqs[0].data, reqs[0].len)
  {
    hide Misses, Apart, Slot;
    var x := Index(cur, j);
    SlotsDiffer(cur, j, q.num);
    SlotsApart(q, x, cur);
    hide Index, GoodQueue;
    assert Proper(q, reqs[j]) && Proper(q, reqs[0]);
    assert BuffersMiss(reqs[j], reqs[0].status, 1) && BuffersMiss(reqs[j], reqs[0].data, reqs[0].len);
    MissesSlot(q, x, cur, reqs[j]);
    MissesBuffer(q, x, reqs[j], reqs[0].status, 1);
    MissesBuffer(q, x, reqs[j], reqs[0].data, reqs[0].len);
  }

  lemma MissesSlot(q: Queue, x: nat, cur: nat, r: Request)
    requires q.num > 0 && Apart(Slot(q, x), 8, Slot(q, cur), 8) && Proper(q, r)
    ensures Misses(q, x, r, Slot(q, cur), 8)
  {
    SlotInside(q, cur);
  }

  lemma MissesBuffer(q: Queue, x: nat, r: Request, a: nat, n: nat)
    requires q.num > 0 && BuffersMiss(r, a, n) && Apart(a, n, q.used, 4 + 8 * q.num)
    ensures Misses(q, x, r, a, n)
  {
    SlotInside(q, x);
  }

  /** What the guest finds for request i. */
  ghost predicate Completed(q: Queue, cur: nat, i: nat, r: Request, ram: seq<Byte>)
    requires q.num > 0
  {
    var slot := Slot(q, Index(cur, i));
    && slot + 8 <= |ram| && ram[slot..slot + 8] == Le(r.head, 4) + Le(r.len, 4)
    && r.status < |ram| && ram[r.status] == 0
  }

  lemma FirstStays(q: Queue, s: State, reqs: seq<Request>)
    requires Ready(q, s, reqs) && Disjoint(q, reqs) && 0 < |reqs| <= q.num && Serve(q, s, reqs).Some?
    ensures Completed(q, s.cur, 0, reqs[0], Serve(q, s, reqs).value.ram)
    ensures Fetched(reqs[0], s.disk, Serve(q, s, reqs).value.ram)
  {
    hide Serve, Step, Misses, Slot, Offset, Le, GoodQueue, Index, Disjoint, Ready, Proper, Apart, Completed, Fetched;
    ReadyFacts(q, s, reqs);
    ProperFirst(q, reqs);
    var r, last := reqs[0], Serve(q, s, reqs).value.ram;
    var s1 := ServeFirst(q, s, reqs);
    StepWrites(q, s, r);
    RestSpares(q, s, reqs, s1);
    FirstFound(q, s, r, last, s1);
  }

  /** The rest of the batch leaves what the first request wrote. */
  lemma RestSpares(q: Queue, s: State, reqs: seq<Request>, s1: State)
    requires GoodQueue(q, |s1.ram|) && s.cur < INDEX && Disjoint(q, reqs) && 0 < |reqs| <= q.num && InBounds(q, reqs[0], |s1.ram|)
    requires Ready(q, s1, reqs[1..]) && Serve(q, s1, reqs[1..]).Some? && s1.cur == Index(s.cur, 1) && Slot(q, s.cur) + 8 <= |s1.ram|
    ensures var last, r, slot := Serve(q, s1, reqs[1..]).value.ram, reqs[0], Slot(q, s.cur);
            && last[slot..slot + 8] == s1.ram[slot..slot + 8]
            && last[r.status..r.status + 1] == s1.ram[r.status..r.status + 1]
            && last[r.data..r.data + r.len] == s1.ram[r.data..r.data + r.len]
  {
    hide Serve, Misses, Slot, GoodQueue, Index, Disjoint, Ready;
    var r := reqs[0];
    assert q.num > 0;
    forall j | 0 < j < |reqs|
      ensures Misses(q, Index(s.cur, j), reqs[j], Slot(q, s.cur), 8)
      ensures Misses(q, Index(s.cur, j), reqs[j], r.status, 1)
      ensures Misses(q, Index(s.cur, j), reqs[j], r.data, r.len)
    {
      LaterMiss(q, |s1.ram|, s.cur, reqs, j);
    }
    RestKeeps(q, s, reqs, s1, Slot(q, s.cur), 8);
    RestKeeps(q, s, reqs, s1, r.status, 1);
    RestKeeps(q, s, reqs, s1, r.data, r.len);
  }

  lemma FirstFound(q: Queue, s: State, r: Request, last: seq<Byte>, s1: State)
    requires q.num > 0 && s.cur < INDEX && InBounds(q, r, |last|) && |last| == |s1.ram| && Slot(q, s.cur) + 8 <= |last|
    requires last[Slot(q, s.cur)..Slot(q, s.cur) + 8] == s1.ram[Slot(q, s.cur)..Slot(q, s.cur) + 8] == Le(r.head, 4) + Le(r.len, 4)
    requires last[r.status..r.status + 1] == s1.ram[r.status..r.status + 1] && s1.ram[r.status] == 0
    requires last[r.data..r.data + r.len] == s1.ram[r.data..r.data + r.len]
    requires r.kind == T_IN ==> Offset(r) + r.len <= |s.disk| && s1.ram[r.data..r.data + r.len] == s.disk[Offset(r)..Offset(r) + r.len]
    ensures Completed(q, s.cur, 0, r, last) && Fetched(r, s.disk, last)
  {
    hide Slot, Offset, Le, Index;
    OneByte(last, s1.ram, r.status);
    IndexNextBy(s.cur, 0);
  }

  lemma RestKeeps(q: Queue, s: State, reqs: seq<Request>, s1: State, a: nat, n: nat)
    requires q.num > 0 && reqs != [] && Ready(q, s1, reqs[1..]) && Serve(q, s1, reqs[1..]).Some? && s1.cur == Index(s.cur, 1)
    requires a + n <= |s1.ram| && forall j :: 0 < j < |reqs| ==> Misses(q, Index(s.cur, j), reqs[j], a, n)
    ensures Serve(q, s1, reqs[1..]).value.ram[a..a + n] == s1.ram[a..a + n]
  {
    hide Serve, Misses, GoodQueue, Index, Ready, InBounds;
    forall j | 0 <= j < |reqs[1..]|
      ensures Misses(q, Index(s1.cur, j), reqs[1..][j], a, n)
    {
      IndexNextBy(s.cur, j);
      assert Misses(q, Index(s.cur, j + 1), reqs[j + 1], a, n);
    }
    ServeKeeps(q, s1, reqs[1..], a, n);
  }

  /** The first step leaves the payloads of the later writes as they were, and does its own on the disk. */
  lemma FirstOp(q: Queue, s: State, reqs: seq<Request>, s1: State)
    requires Ready(q, s, reqs) && Disjoint(q, reqs) && 0 < |reqs| && Step(q, s, reqs[0]) == Some(s1)
    ensures Ops(s1.ram, reqs[1..]) == Ops(s.ram, reqs)[1..]
    ensures s1.disk == Apply(s.disk, Ops(s.ram, reqs)[0])
  {
    hide Slot, Offset, Apply, Step, GoodQueue, Misses, Disjoint, Ready;
    var r := reqs[0];
    ReadyFacts(q, s, reqs);
    ProperFirst(q, reqs);
    StepSize(q, s, r);
    forall i | 0 <= i < |reqs[1..]|
      ensures OpOf(s1.ram, reqs[1..][i]) == OpOf(s.ram, reqs[i + 1])
    {
      var x := reqs[i + 1];
      MissesLater(q, s.cur, reqs, i + 1);
      StepKeeps(q, s, r, x.data, x.len);
    }
    OwnPayload(q, s, r);
  }

  lemma StepSize(q: Queue, s: State, r: Request)
    requires GoodQueue(q, |s.ram|) && InBounds(q, r, |s.ram|) && Step(q, s, r).Some?
    ensures |Step(q, s, r).value.ram| == |s.ram|
  {
  }

  lemma MissesLater(q: Queue, cur: nat, reqs: seq<Request>, j: nat)
    requires q.num > 0 && Disjoint(q, reqs) && 0 < j < |reqs|
    ensures Misses(q, cur, reqs[0], reqs[j].data, reqs[j].len)
  {
    SlotInside(q, cur);
    assert Proper(q, reqs[j]) && BuffersMiss(reqs[0], reqs[j].data, reqs[j].len);
  }

  /** Publishing does not disturb the payload that is then written. */
  lemma OwnPayload(q: Queue, s: State, r: Request)
    requires GoodQueue(q, |s.ram|) && InBounds(q, r, |s.ram|) && Proper(q, r) && Step(q, s, r).Some?
    ensures Step(q, s, r).value.disk == Apply(s.disk, OpOf(s.ram, r))
  {
    hide Splice, Le, DiskWrite, Offset, SectorStart;
    OffsetIsSector(r);
    SlotInside(q, s.cur);
    var ram1 := Splice(s.ram, Slot(q, s.cur), Le(r.head, 4) + Le(r.len, 4));
    var ram2 := Splice(ram1, r.status, [0]);
    SpliceKeeps(s.ram, Slot(q, s.cur), Le(r.head, 4) + Le(r.len, 4), r.data, r.len);
    SpliceKeeps(ram1, r.status, [0], r.data, r.len);
    SpliceKeeps(ram2, q.used + 2, Le((s.cur + 1) % INDEX, 2), r.data, r.len);
  }

  /** Served requests are completed, every read holds the disk as the earlier requests left it, and the disk
      is that of a plain block device. */
  lemma {:induction false} BatchInOrder(q: Queue, s: State, reqs: seq<Request>)
    requires Ready(q, s, reqs) && Disjoint(q, reqs) && |reqs| <= q.num && Serve(q, s, reqs).Some?
    ensures var s' := Serve(q, s, reqs).value;
            && s'.disk == BlockRun(s.disk, Ops(s.ram, reqs))
            && s'.cur == Index(s.cur, |reqs|)
            && (forall i :: 0 <= i < |reqs| ==> Completed(q, s.cur, i, reqs[i], s'.ram))
            && (forall i :: 0 <= i < |reqs| ==> Fetched(reqs[i], BlockRun(s.disk, Ops(s.ram, reqs)[..i]), s'.ram))
            && (reqs != [] ==> s'.ram[q.used + 2..q.used + 4] == Le(s'.cur, 2))
    decreases |reqs|
  {
    hide Step, Completed, Fetched, Le, Apply, Disjoint, Ready, GoodQueue, InBounds, Index, Slot, Offset;
    ReadyFacts(q, s, reqs);
    if reqs == [] {
      ServeEmpty(q, s);
      IndexNextBy(s.cur, 0);
    } else {
      hide Serve;
      var s1 := ServeFirst(q, s, reqs);
      var t, ops := reqs[1..], Ops(s.ram, reqs);
      DisjointTail(q, reqs);
      FirstOp(q, s, reqs, s1);
      FirstStays(q, s, reqs);
      BatchInOrder(q, s1, t);
      var s' := Serve(q, s, reqs).value;
      ProperFirst(q, reqs);
      StepWrites(q, s, reqs[0]);
      if t == [] { ServeEmpty(q, s1); }
      IndexNextBy(s.cur, |t|);
      IndexNextBy(s1.cur, 0);
      CompletedOneMore(q, s.cur, reqs, s.disk, ops, s'.ram);
    }
  }

  /** The first request and the rest of the batch. */
  lemma CompletedOneMore(q: Queue, cur: nat, reqs: seq<Request>, disk: seq<Byte>, ops: seq<BlockOp>, ram: seq<Byte>)
    requires q.num > 0 && |reqs| == |ops| > 0 && Completed(q, cur, 0, reqs[0], ram) && Fetched(reqs[0], disk, ram)
    requires forall i :: 0 <= i < |reqs[1..]| ==> Completed(q, Index(cur, 1), i, reqs[1..][i], ram)
    requires forall i :: 0 <= i < |reqs[1..]| ==> Fetched(reqs[1..][i], BlockRun(Apply(disk, ops[0]), ops[1..][..i]), ram)
    ensures forall i :: 0 <= i < |reqs| ==> Completed(q, cur, i, reqs[i], ram)
    ensures forall i :: 0 <= i < |reqs| ==> Fetched(reqs[i], BlockRun(disk, ops[..i]), ram)
  {
    hide Completed, Fetched, Apply, Index;
    forall i | 0 <= i < |reqs|
      ensures Completed(q, cur, i, reqs[i], ram) && Fetched(reqs[i], BlockRun(disk, ops[..i]), ram)
    {
      if i == 0 {
        assert ops[..0] == [];
      } else {
        assert Completed(q, Index(cur, 1), i - 1, reqs[1..][i - 1], ram);
        CompletedShift(q, cur, i - 1, reqs[i], ram);
        assert Fetched(reqs[1..][i - 1], BlockRun(Apply(disk, ops[0]), ops[1..][..i - 1]), ram);
        assert ops[..i][1..] == ops[1..][..i - 1] && ops[..i][0] == ops[0];
      }
    }
  }

  lemma ProperFirst(q: Queue, reqs: seq<Request>)
    requires Disjoint(q, reqs) && reqs != []
    ensures Proper(q, reqs[0])
  {
  }

  lemma CompletedShift(q: Queue, c: nat, j: nat, r: Request, ram: seq<Byte>)
    requires q.num > 0
    ensures Completed(q, Index(c, 1), j, r, ram) == Completed(q, c, j + 1, r, ram)
  {
    IndexNextBy(c, j);
  }

  /** A chain the device follows, and a transfer it can make on a disk of this size. */
  predicate Sound(r: Request, size: nat) {
    r.chained && (r.kind == T_IN || r.kind == T_OUT ==> r.len > 0) && (r.kind == T_IN ==> Offset(r) + r.len <= size)
  }

  ghost predicate AllSound(reqs: seq<Request>, size: nat) { forall i :: 0 <= i < |reqs| ==> Sound(reqs[i], size) }

  /** Sound requests are all served: the device does not exit. */
  lemma {:induction false} SoundServed(q: Queue, s: State, reqs: seq<Request>)
    requires Ready(q, s, reqs) && AllSound(reqs, |s.disk|)
    ensures Serve(q, s, reqs).Some?
    decreases |reqs|
  {
    hide Splice, Le, Offset, GoodQueue, InBounds;
    ReadyFacts(q, s, reqs);
    if reqs != [] {
      var r := reqs[0];
      assert Sound(r, |s.disk|);
      var p := Publish(q, s, r);
      assert p.disk == s.disk && p.cur < INDEX;
      BoundsFacts(q, r, |s.ram|);
      hide Publish;
      DiskGrows(p, r);
      SoundServed(q, Transfer(p, r).value, reqs[1..]);
    }
  }

  lemma BoundsFacts(q: Queue, r: Request, size: nat)
    requires InBounds(q, r, size)
    ensures r.data + r.len <= size
  {
  }

  lemma DiskGrows(s: State, r: Request)
    requires r.data + r.len <= |s.ram| && Sound(r, |s.disk|)
    ensures Transfer(s, r).Some? && |Transfer(s, r).value.disk| >= |s.disk|
  {
  }

  // ---- One notification ------------------------------------------------------------------------------

  /** The driver's side of the bargain: at most a ring of requests, sound addresses, disjoint buffers. */
  predicate FairBatch(q: Queue, s: State) {
    && GoodQueue(q, |s.ram|) && s.cur < INDEX
    && var reqs := Waiting(s.ram, q, s.cur);
       |reqs| <= q.num && Isolated(q, reqs, |s.ram|) && Disjoint(q, reqs)
  }

  lemma FairReady(q: Queue, s: State)
    requires FairBatch(q, s)
    ensures q.num > 0 && Ready(q, s, Waiting(s.ram, q, s.cur))
    ensures Disjoint(q, Waiting(s.ram, q, s.cur)) && Isolated(q, Waiting(s.ram, q, s.cur), |s.ram|)
    ensures |Waiting(s.ram, q, s.cur)| <= q.num
    ensures Index(s.cur, |Waiting(s.ram, q, s.cur)|) == AvailIndex(s.ram, q)
  {
    hide Disjoint, Clear, Parse, Load;
    IndexBound(s.ram, q);
  }

  /** The available ring is not written. */
  lemma AvailStays(q: Queue, s: State)
    requires FairBatch(q, s) && Ready(q, s, Waiting(s.ram, q, s.cur)) && Serve(q, s, Waiting(s.ram, q, s.cur)).Some?
    ensures AvailIndex(Serve(q, s, Waiting(s.ram, q, s.cur)).value.ram, q) == AvailIndex(s.ram, q)
  {
    hide Serve, Parse, Disjoint, Waiting;
    var reqs := Waiting(s.ram, q, s.cur);
    FairReady(q, s);
    forall j | 0 <= j < |reqs|
      ensures Misses(q, Index(s.cur, j), reqs[j], q.avail + 2, 2)
    {
      SlotInside(q, Index(s.cur, j));
      assert Clear(q, reqs[j].status, 1, reqs) && (reqs[j].kind == T_IN ==> Clear(q, reqs[j].data, reqs[j].len, reqs));
    }
    ServeKeeps(q, s, reqs, q.avail + 2, 2);
  }

  lemma UsedIndexIs(ram: seq<Byte>, q: Queue, v: nat)
    requires q.used + 4 <= |ram| && v < INDEX && ram[q.used + 2..q.used + 4] == Le(v, 2)
    ensures UsedIndex(ram, q) == v
  {
    assert Power256(2) == INDEX;
    LeRoundTrip(v, 2);
  }

  /** After a notification the indices are in step again and nothing waits. */
  lemma IndicesMeet(q: Queue, s: State)
    requires FairBatch(q, s) && Serve(q, s, Waiting(s.ram, q, s.cur)).Some?
    requires UsedIndex(s.ram, q) == s.cur
    ensures var s' := Serve(q, s, Waiting(s.ram, q, s.cur)).value;
            && UsedIndex(s'.ram, q) == AvailIndex(s'.ram, q) == s'.cur == AvailIndex(s.ram, q)
            && Waiting(s'.ram, q, s'.cur) == []
  {
    hide Serve, Disjoint, Isolated, Index, Waiting, Ready, Le, UsedIndex, AvailIndex, FairBatch, GoodQueue, Completed, Fetched;
    FairReady(q, s);
    var reqs := Waiting(s.ram, q, s.cur);
    AvailStays(q, s);
    IndexBound(s.ram, q);
    ReadyFacts(q, s, reqs);
    BatchInOrder(q, s, reqs);
    var s' := Serve(q, s, reqs).value;
    if reqs == [] {
      ServeEmpty(q, s);
    } else {
      UsedIndexIs(s'.ram, q, s'.cur);
    }
    NoneWaits(s'.ram, q);
  }

  lemma NoneWaits(ram: seq<Byte>, q: Queue)
    requires q.num > 0
    ensures Waiting(ram, q, AvailIndex(ram, q)) == []
  {
  }

  /** Byte i of RAM is in no used element, status byte or read buffer of the batch, nor in the used index. */
  ghost predicate Untouched(q: Queue, cur: nat, reqs: seq<Request>, i: nat)
    requires q.num > 0
  {
    forall j :: 0 <= j < |reqs| ==> Misses(q, Index(cur, j), reqs[j], i, 1)
  }

  ghost predicate OthersKept(q: Queue, cur: nat, reqs: seq<Request>, before: seq<Byte>, after: seq<Byte>)
    requires q.num > 0
  {
    |after| == |before| && forall i: nat :: i < |before| && Untouched(q, cur, reqs, i) ==> after[i] == before[i]
  }

  lemma UntouchedStays(q: Queue, s: State, reqs: seq<Request>, i: nat)
    requires Ready(q, s, reqs) && q.num > 0 && Serve(q, s, reqs).Some? && i < |s.ram| && Untouched(q, s.cur, reqs, i)
    ensures i < |Serve(q, s, reqs).value.ram| && Serve(q, s, reqs).value.ram[i] == s.ram[i]
  {
    hide Serve, Misses, Index, Ready;
    ReadyFacts(q, s, reqs);
    ServeKeeps(q, s, reqs, i, 1);
    OneByte(Serve(q, s, reqs).value.ram, s.ram, i);
  }

  /** A notification, as the guest sees it: sound requests are all served, and then they are completed in order on a
      plain block device, and no other memory changed. */
  method Notify(dev: VirtioBlk) returns (ok: bool)
    requires FairBatch(dev.Ring(), dev.Abs()) && UsedIndex(dev.ram[..], dev.Ring()) == dev.availCurrent
    modifies dev`availCurrent, dev`disk, dev`bytesRead, dev`bytesWritten, dev.ram
    ensures AllSound(Waiting(old(dev.ram[..]), dev.Ring(), old(dev.availCurrent)), old(|dev.disk|)) ==> ok
    ensures ok ==>
      var q, s := dev.Ring(), old(dev.Abs());
      var reqs := Waiting(s.ram, q, s.cur);
      && UsedIndex(dev.ram[..], q) == AvailIndex(dev.ram[..], q) == dev.availCurrent == AvailIndex(s.ram, q)
      && OthersKept(q, s.cur, reqs, s.ram, dev.ram[..])
      && dev.disk == BlockRun(s.disk, Ops(s.ram, reqs))
      && (forall i :: 0 <= i < |reqs| ==> Completed(q, s.cur, i, reqs[i], dev.ram[..]))
      && (forall i :: 0 <= i < |reqs| ==> Fetched(reqs[i], BlockRun(s.disk, Ops(s.ram, reqs)[..i]), dev.ram[..]))
      && BytesInOrder(s, reqs, dev.disk, dev.ram[..])
  {
    hide Serve, Disjoint, Isolated, Load, Index, Parse, Le, Completed, Fetched, Ops, BlockRun, Ready, Untouched, AllSound, Waiting, BytesInOrder;
    ghost var q, s := dev.Ring(), dev.Abs();
    FairReady(q, s);
    ghost var reqs := Waiting(s.ram, q, s.cur);
    if AllSound(reqs, |s.disk|) {
      SoundServed(q, s, reqs);
    }
    ok := dev.HandleRequest();
    if ok {
      BatchInOrder(q, s, reqs);
      InOrder(s, reqs, dev.disk, dev.ram[..]);
      IndicesMeet(q, s);
      ReadyFacts(q, s, reqs);
      forall i: nat | i < |s.ram| && Untouched(q, s.cur, reqs, i)
        ensures Serve(q, s, reqs).value.ram[i] == s.ram[i]
      {
        UntouchedStays(q, s, reqs, i);
      }
    }
  }
}
