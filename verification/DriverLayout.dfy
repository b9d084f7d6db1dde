/**
 A request as a driver lays it out in guest RAM, against what the device reads.
 */
module DriverLayout {
  import opened Pages
  import opened LittleEndian
  import opened Virtio

  ghost predicate Laid(ram: seq<Byte>, a: nat, bytes: seq<Byte>) { a + |bytes| <= |ram| && ram[a..a + |bytes|] == bytes }

  /** struct vring_desc. */
  function DescBytes(addr: nat, len: nat, flags: nat, next: nat): seq<Byte> { Le(addr, 8) + Le(len, 4) + Le(flags, 2) + Le(next, 2) }

  /** struct virtio_blk_outhdr. */
  function HeaderBytes(kind: nat, ioprio: nat, sector: nat): seq<Byte> { Le(kind, 4) + Le(ioprio, 4) + Le(sector, 8) }

  lemma LoadLaid(ram: seq<Byte>, a: nat, before: seq<Byte>, v: nat, n: nat, after: seq<Byte>)
    requires v < Power256(n) && Laid(ram, a, before + Le(v, n) + after)
    ensures Load(ram, a + |before|, n) == v
  {
    hide Le, LeValue, Power256;
    var all, b := before + Le(v, n) + after, a + |before|;
    assert all[|before|..|before| + n] == Le(v, n);
    SubSlice(ram, a, |all|, |before|, n);
    LeRoundTrip(v, n);
  }

  lemma DescLaid(ram: seq<Byte>, q: Queue, d: nat, addr: nat, len: nat, flags: nat, next: nat)
    requires addr < Power256(8) && len < Power256(4) && next < Power256(2) && Laid(ram, q.desc + 16 * d, DescBytes(addr, len, flags, next))
    ensures DescAddr(ram, q, d) == addr && DescLen(ram, q, d) == len && DescNext(ram, q, d) == next
  {
    hide Le, Load, Power256;
    var a := q.desc + 16 * d;
    var all := DescBytes(addr, len, flags, next);
    assert all == [] + Le(addr, 8) + (Le(len, 4) + Le(flags, 2) + Le(next, 2));
    LoadLaid(ram, a, [], addr, 8, Le(len, 4) + Le(flags, 2) + Le(next, 2));
    assert all == Le(addr, 8) + Le(len, 4) + (Le(flags, 2) + Le(next, 2));
    LoadLaid(ram, a, Le(addr, 8), len, 4, Le(flags, 2) + Le(next, 2));
    assert all == (Le(addr, 8) + Le(len, 4) + Le(flags, 2)) + Le(next, 2) + [];
    LoadLaid(ram, a, Le(addr, 8) + Le(len, 4) + Le(flags, 2), next, 2, []);
  }

  /** struct vring_avail: flags, index, ring. */
  lemma AvailLaid(ram: seq<Byte>, q: Queue, flags: nat, idx: nat)
    requires idx < Power256(2) && Laid(ram, q.avail, Le(flags, 2) + Le(idx, 2))
    ensures AvailIndex(ram, q) == idx
  {
    hide Le, Load, Power256;
    assert Le(flags, 2) + Le(idx, 2) == Le(flags, 2) + Le(idx, 2) + [];
    LoadLaid(ram, q.avail, Le(flags, 2), idx, 2, []);
  }

  /** A chain of three descriptors with its header, laid out as section 5.2.6 of VIRTIO 1.1 says, is read back as the request meant. */
  lemma DriverRequest(ram: seq<Byte>, q: Queue, cur: nat, head: nat, header: nat, kind: nat, ioprio: nat, sector: nat,
                      data: nat, len: nat, status: nat, headerLen: nat, flags: nat, flags1: nat, flags2: nat, next: nat, next1: nat, next2: nat)
    requires q.num > 0 && head < Power256(2) && header < Power256(8) && headerLen < Power256(4) && next < Power256(2)
    requires kind < Power256(4) && sector < Power256(8) && data < Power256(8) && len < Power256(4) && next1 < Power256(2)
    requires status < Power256(8) && next2 < Power256(2)
    requires Laid(ram, q.avail + 4 + 2 * (cur % q.num), Le(head, 2)) && Laid(ram, header, HeaderBytes(kind, ioprio, sector))
    requires Laid(ram, q.desc + 16 * head, DescBytes(header, headerLen, flags, next))
    requires Laid(ram, q.desc + 16 * ((head + 1) % q.num), DescBytes(data, len, flags1, next1))
    requires Laid(ram, q.desc + 16 * (((head + 1) % q.num + 1) % q.num), DescBytes(status, 1, flags2, next2))
    ensures Parse(ram, q, cur)
         == Request(head, header, kind, sector, data, len, status,
                    next == (head + 1) % q.num && next1 == ((head + 1) % q.num + 1) % q.num)
  {
    hide Le, Load, DescBytes, Laid, DescAddr, DescLen, DescNext, Power256;
    var d1 := (head + 1) % q.num;
    HeadLaid(ram, q.avail + 4 + 2 * (cur % q.num), head);
    HeaderLaid(ram, header, kind, ioprio, sector);
    DescLaid(ram, q, head, header, headerLen, flags, next);
    DescLaid(ram, q, d1, data, len, flags1, next1);
    assert 1 < Power256(4) by { OneFits(); }
    DescLaid(ram, q, (d1 + 1) % q.num, status, 1, flags2, next2);
  }

  lemma OneFits()
    ensures 1 < Power256(4)
  {
  }

  lemma HeadLaid(ram: seq<Byte>, a: nat, head: nat)
    requires head < Power256(2) && Laid(ram, a, Le(head, 2))
    ensures Load(ram, a, 2) == head
  {
    hide Le, Load, Power256;
    assert Le(head, 2) == [] + Le(head, 2) + [];
    LoadLaid(ram, a, [], head, 2, []);
  }

  lemma HeaderLaid(ram: seq<Byte>, a: nat, kind: nat, ioprio: nat, sector: nat)
    requires kind < Power256(4) && sector < Power256(8) && Laid(ram, a, HeaderBytes(kind, ioprio, sector))
    ensures Load(ram, a, 4) == kind && Load(ram, a + 8, 8) == sector
  {
    hide Le, Load, Power256;
    var all := HeaderBytes(kind, ioprio, sector);
    assert all == [] + Le(kind, 4) + (Le(ioprio, 4) + Le(sector, 8));
    LoadLaid(ram, a, [], kind, 4, Le(ioprio, 4) + Le(sector, 8));
    assert all == (Le(kind, 4) + Le(ioprio, 4)) + Le(sector, 8) + [];
    LoadLaid(ram, a, Le(kind, 4) + Le(ioprio, 4), sector, 8, []);
  }
}
