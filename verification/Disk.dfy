/**
 The plain block device, and its disk byte by byte: every byte is that of the last write to it.
 */
module Disk {
  import opened Pages
  import opened Virtio

  // ---- The plain block device ----------------------------------------------------------------

  datatype BlockOp = ReadBlock | WriteBlock(off: nat, bytes: seq<Byte>)

  /** Sectors are 512 bytes; the offset is a 64-bit product. */
  function SectorStart(r: Request): nat { 512 * r.sector % 0x1_0000_0000_0000_0000 }

  lemma OffsetIsSector(r: Request)
    ensures Offset(r) == SectorStart(r)
  {
  }

  /** The payload of a write is what the guest put in the buffer before the notification. */
  function OpOf(ram: seq<Byte>, r: Request): BlockOp {
    if r.kind == 1 && r.data + r.len <= |ram| then WriteBlock(SectorStart(r), ram[r.data..r.data + r.len]) else ReadBlock
  }

  function Ops(ram: seq<Byte>, reqs: seq<Request>): (r: seq<BlockOp>)
    ensures |r| == |reqs|
  {
    seq(|reqs|, i requires 0 <= i < |reqs| => OpOf(ram, reqs[i]))
  }

  function Apply(disk: seq<Byte>, op: BlockOp): seq<Byte> {
    if op.WriteBlock? then DiskWrite(disk, op.off, op.bytes) else disk
  }

  function BlockRun(disk: seq<Byte>, ops: seq<BlockOp>): seq<Byte>
    decreases |ops|
  {
    if ops == [] then disk else BlockRun(Apply(disk, ops[0]), ops[1..])
  }

  // ---- One write -------------------------------------------------------------------------------

  /** A write puts its bytes at its offset, keeps every other byte, fills a gap with zeros, and grows the file if it must. */
  lemma WriteBytes(disk: seq<Byte>, off: nat, bytes: seq<Byte>)
    ensures var r := DiskWrite(disk, off, bytes);
            && |r| == (if |disk| > off + |bytes| then |disk| else off + |bytes|)
            && forall i :: 0 <= i < |r| ==>
                 r[i] == if off <= i < off + |bytes| then bytes[i - off] else if i < |disk| then disk[i] else 0
  {
    var d := if |disk| < off then disk + Zeros(off - |disk|) else disk;
    assert forall i :: 0 <= i < |d| ==> d[i] == if i < |disk| then disk[i] else 0;
  }

  // ---- A run -----------------------------------------------------------------------------------

  predicate Hits(op: BlockOp, i: nat) { op.WriteBlock? && op.off <= i < op.off + |op.bytes| }

  /** b is what the last write to byte i put there, or what was there before, or zero past the old end. */
  ghost predicate LastWritten(disk: seq<Byte>, ops: seq<BlockOp>, i: nat, b: Byte) {
    && (forall k :: 0 <= k < |ops| && Hits(ops[k], i) && (forall j :: k < j < |ops| ==> !Hits(ops[j], i)) ==> b == ops[k].bytes[i - ops[k].off])
    && ((forall k :: 0 <= k < |ops| ==> !Hits(ops[k], i)) ==> b == if i < |disk| then disk[i] else 0)
  }

  /** The size is the largest end: of the old disk, or of a write. */
  ghost predicate GrownTo(size: nat, ops: seq<BlockOp>, size': nat) {
    && size <= size'
    && (forall k :: 0 <= k < |ops| && ops[k].WriteBlock? ==> ops[k].off + |ops[k].bytes| <= size')
    && (size' == size || exists k :: 0 <= k < |ops| && ops[k].WriteBlock? && ops[k].off + |ops[k].bytes| == size')
  }

  lemma {:induction false} RunFromEnd(disk: seq<Byte>, ops: seq<BlockOp>)
    requires ops != []
    ensures BlockRun(disk, ops) == Apply(BlockRun(disk, ops[..|ops| - 1]), ops[|ops| - 1])
    decreases |ops|
  {
    hide Apply;
    var n := |ops| - 1;
    if n == 0 {
      assert ops[1..] == [] && ops[..0] == [];
      assert BlockRun(Apply(disk, ops[0]), []) == Apply(disk, ops[0]);
    } else {
      RunFromEnd(Apply(disk, ops[0]), ops[1..]);
      assert ops[1..][..n - 1] == ops[..n][1..] && ops[..n][0] == ops[0] && ops[1..][n - 1] == ops[n];
    }
  }

  lemma {:induction false} LastWriteWins(disk: seq<Byte>, ops: seq<BlockOp>, i: nat)
    requires i < |BlockRun(disk, ops)|
    ensures LastWritten(disk, ops, i, BlockRun(disk, ops)[i])
    decreases |ops|
  {
    if ops != [] {
      hide DiskWrite, BlockRun;
      var n := |ops| - 1;
      var before, op := BlockRun(disk, ops[..n]), ops[n];
      RunFromEnd(disk, ops);
      if op.WriteBlock? { WriteBytes(before, op.off, op.bytes); }
      if !Hits(op, i) {
        if i < |before| {
          LastWriteWins(disk, ops[..n], i);
          LastOfMore(disk, ops, i, before[i]);
        } else {
          RunSize(disk, ops[..n]);
          PastTheEnd(disk, ops, i);
        }
      }
    }
  }

  /** A last operation that misses the byte changes nothing of this. */
  lemma LastOfMore(disk: seq<Byte>, ops: seq<BlockOp>, i: nat, b: Byte)
    requires ops != [] && !Hits(ops[|ops| - 1], i) && LastWritten(disk, ops[..|ops| - 1], i, b)
    ensures LastWritten(disk, ops, i, b)
  {
    var front := ops[..|ops| - 1];
    forall k | 0 <= k < |ops| && Hits(ops[k], i) && (forall j :: k < j < |ops| ==> !Hits(ops[j], i))
      ensures b == ops[k].bytes[i - ops[k].off]
    {
      assert front[k] == ops[k];
      assert forall j :: k < j < |front| ==> front[j] == ops[j];
    }
    if forall k :: 0 <= k < |ops| ==> !Hits(ops[k], i) {
      assert forall k :: 0 <= k < |front| ==> front[k] == ops[k];
    }
  }

  lemma PastTheEnd(disk: seq<Byte>, ops: seq<BlockOp>, i: nat)
    requires ops != [] && !Hits(ops[|ops| - 1], i) && GrownTo(|disk|, ops[..|ops| - 1], |BlockRun(disk, ops[..|ops| - 1])|)
    requires |BlockRun(disk, ops[..|ops| - 1])| <= i
    ensures LastWritten(disk, ops, i, 0)
  {
    hide BlockRun;
    var front := ops[..|ops| - 1];
    forall k | 0 <= k < |ops|
      ensures !Hits(ops[k], i)
    {
      if k < |front| { assert front[k] == ops[k]; }
    }
  }

  lemma {:induction false} RunSize(disk: seq<Byte>, ops: seq<BlockOp>)
    ensures GrownTo(|disk|, ops, |BlockRun(disk, ops)|)
    decreases |ops|
  {
    if ops != [] {
      hide DiskWrite, BlockRun;
      var n := |ops| - 1;
      var before, op := BlockRun(disk, ops[..n]), ops[n];
      RunFromEnd(disk, ops);
      RunSize(disk, ops[..n]);
      if op.WriteBlock? { WriteBytes(before, op.off, op.bytes); }
      assert forall k :: 0 <= k < n ==> ops[..n][k] == ops[k];
    }
  }

  // ---- What the guest finds ---------------------------------------------------------------------

  /** What the guest finds in the buffer of a read of this disk. */
  ghost predicate Fetched(r: Request, disk: seq<Byte>, ram: seq<Byte>) {
    r.kind == T_IN ==>
      && Offset(r) + r.len <= |disk| && r.data + r.len <= |ram|
      && ram[r.data..r.data + r.len] == disk[Offset(r)..Offset(r) + r.len]
  }

  /** Every byte of the disk, and of every read, is that of the last write before it. */
  ghost predicate BytesInOrder(s: State, reqs: seq<Request>, disk: seq<Byte>, ram: seq<Byte>) {
    var ops := Ops(s.ram, reqs);
    && GrownTo(|s.disk|, ops, |disk|)
    && (forall i: nat :: i < |disk| ==> LastWritten(s.disk, ops, i, disk[i]))
    && (forall k: nat :: k < |reqs| && reqs[k].kind == 0 ==> ReadInOrder(s.disk, ops[..k], reqs[k], ram))
  }

  ghost predicate ReadInOrder(disk: seq<Byte>, ops: seq<BlockOp>, r: Request, ram: seq<Byte>) {
    r.data + r.len <= |ram| && forall i: nat :: r.data <= i < r.data + r.len ==> LastWritten(disk, ops, SectorStart(r) + i - r.data, ram[i])
  }

  lemma ReadBytes(disk: seq<Byte>, ops: seq<BlockOp>, r: Request, ram: seq<Byte>)
    requires r.kind == T_IN && Fetched(r, BlockRun(disk, ops), ram)
    ensures ReadInOrder(disk, ops, r, ram)
  {
    hide LastWritten, BlockRun, Offset, SectorStart;
    OffsetIsSector(r);
    var d := BlockRun(disk, ops);
    forall i: nat | r.data <= i < r.data + r.len
      ensures LastWritten(disk, ops, SectorStart(r) + i - r.data, ram[i])
    {
      var j := i - r.data;
      assert ram[r.data..r.data + r.len][j] == d[Offset(r)..Offset(r) + r.len][j];
      LastWriteWins(disk, ops, Offset(r) + j);
    }
  }

  lemma InOrder(s: State, reqs: seq<Request>, disk: seq<Byte>, ram: seq<Byte>)
    requires disk == BlockRun(s.disk, Ops(s.ram, reqs))
    requires forall k :: 0 <= k < |reqs| ==> Fetched(reqs[k], BlockRun(s.disk, Ops(s.ram, reqs)[..k]), ram)
    ensures BytesInOrder(s, reqs, disk, ram)
  {
    hide Fetched, BlockRun, Ops, LastWritten, GrownTo, ReadInOrder;
    var ops := Ops(s.ram, reqs);
    RunSize(s.disk, ops);
    forall i: nat | i < |disk|
      ensures LastWritten(s.disk, ops, i, disk[i])
    {
      LastWriteWins(s.disk, ops, i);
    }
    forall k: nat | k < |reqs| && reqs[k].kind == T_IN
      ensures ReadInOrder(s.disk, ops[..k], reqs[k], ram)
    {
      ReadBytes(s.disk, ops[..k], reqs[k], ram);
    }
  }
}
