/**
 The sparse memory files of a checkpoint: simple_compress and simple_decompress.
 */
module Checkpoint {
  import opened Wrappers
  import opened Pages

  const LOWMEM_BEGIN: nat := 0
  const LOWMEM_SIZE: nat := 0x1000_0000
  const HIGHMEM_BEGIN: nat := 0x9000_0000
  const HIGHMEM_SIZE: nat := 0xf000_0000

  const PRESENT: seq<Byte> := [1, 0, 0, 0, 0, 0, 0, 0]

  /** n pages of memory from base on. */
  function PagesAt(ram: seq<Byte>, base: nat, n: nat): (r: seq<Page>)
    requires base + n * PAGE <= |ram|
    ensures |r| == n && forall k :: 0 <= k < n ==> r[k] == ram[base + k * PAGE..base + k * PAGE + PAGE]
  {
    seq(n, k requires 0 <= k < n => ram[base + k * PAGE..base + k * PAGE + PAGE])
  }

  lemma {:induction false} JoinPagesAt(ram: seq<Byte>, base: nat, n: nat)
    requires base + n * PAGE <= |ram|
    ensures Join(PagesAt(ram, base, n)) == ram[base..base + n * PAGE]
    decreases n
  {
    if n > 0 {
      JoinPagesAt(ram, base, n - 1);
      assert PagesAt(ram, base, n)[..n - 1] == PagesAt(ram, base, n - 1);
      assert (n - 1) * PAGE + PAGE == n * PAGE;
    }
  }

  // ---- The file --------------------------------------------------------------------------

  function Record(p: Page): seq<Byte> { if IsZero(p) then Zeros(8) else PRESENT + p }

  function Records(pages: seq<Page>): seq<Byte> {
    if pages == [] then [] else Records(pages[..|pages| - 1]) + Record(pages[|pages| - 1])
  }

  function SimpleFile(pages: seq<Page>): seq<Byte> { Records(pages) + PagesSum(pages, 8) }

  /** simple_compress of size bytes from base on. */
  method SimpleCompress(ram: array<Byte>, base: nat, size: nat) returns (file: seq<Byte>, xs: seq<Byte>)
    requires size % PAGE == 0 && base + size <= ram.Length
    ensures var pages := PagesAt(ram[..], base, size / PAGE);
            file == SimpleFile(pages) && xs == PagesSum(pages, 8)
  {
    hide Record, XorSum, PagesSum, Join, Records, Zeros, IsZero;
    ghost var n, start := size / PAGE, ram[..];
    ghost var pages, k: nat := PagesAt(start, base, n), 0;
    file := [];
    NoRecords();
    var addr := 0;
    while addr < size
      invariant 0 <= k <= n && addr == k * PAGE && file == Records(pages[..k])
    {
      var page := ram[base + addr..base + addr + PAGE];
      assert page == pages[k];
      AppendRecord(pages, k);
      if page != Zeros(PAGE) {
        file := file + (PRESENT + page);
      } else {
        file := file + Zeros(8);
      }
      addr, k := addr + PAGE, k + 1;
    }
    assert pages[..n] == pages;
    SumByPages(pages, 8);
    JoinPagesAt(start, base, n);
    assert ram[base..base + size] == start[base..base + size];
    xs := SumLoop(ram[base..base + size], 8);
    file := file + xs;
  }

  lemma NoRecords()
    ensures Records([]) == []
  {
  }

  lemma AppendRecord(pages: seq<Page>, k: nat)
    requires k < |pages|
    ensures Records(pages[..k + 1]) == Records(pages[..k]) + if pages[k] != Zeros(PAGE) then PRESENT + pages[k] else Zeros(8)
  {
    assert pages[..k + 1][..k] == pages[..k];
  }

  // ---- Reading it back ---------------------------------------------------------------------

  datatype Cursor = Cursor(index: nat, pages: seq<Page>, sum: seq<Byte>)

  /** The pages that a file leaves in place of `before`, one flag word at a time; None when it ends too soon. */
  function Expand(file: seq<Byte>, before: seq<Page>): (r: Option<Cursor>)
    ensures r.Some? ==> r.value.index <= |file| && |r.value.pages| == |before| && |r.value.sum| == 8
  {
    if before == [] then Some(Cursor(0, [], Zeros(8)))
    else
      match Expand(file, before[..|before| - 1])
      case None => None
      case Some(c) => ExpandPage(file, c, before[|before| - 1])
  }

  function ExpandPage(file: seq<Byte>, c: Cursor, before: Page): (r: Option<Cursor>)
    requires |c.sum| == 8
    ensures r.Some? ==> r.value.index <= |file| && |r.value.pages| == |c.pages| + 1 && |r.value.sum| == 8
  {
    var i := c.index + 8;
    if |file| < i then None
    else if IsZero(file[c.index..i]) then Some(Cursor(i, c.pages + [before], c.sum))
    else if |file| < i + PAGE then None
    else
      var page := file[i..i + PAGE];
      Some(Cursor(i + PAGE, c.pages + [page], Xor(c.sum, XorSum(page, 8))))
  }

  /** Both assertions at the end of simple_decompress hold. */
  predicate Accepts(file: seq<Byte>, before: seq<Page>) {
    match Expand(file, before)
    case None => false
    case Some(c) => file[c.index..] == c.sum
  }

  method CopyPage(ram: array<Byte>, at: nat, page: Page)
    requires at + PAGE <= ram.Length
    modifies ram
    ensures ram[at..at + PAGE] == page
    ensures SameOutside(old(ram[..]), ram[..], at, at + PAGE)
  {
    forall i | 0 <= i < PAGE {
      ram[at + i] := page[i];
    }
  }

  /** simple_decompress: `ok` is false where the original stops on a failed assertion, or would read past the file. */
  method SimpleDecompress(file: seq<Byte>, ram: array<Byte>, base: nat, size: nat) returns (ok: bool, xs: seq<Byte>)
    requires size % PAGE == 0 && base + size <= ram.Length
    modifies ram
    ensures ok == Accepts(file, PagesAt(old(ram[..]), base, size / PAGE))
    ensures ok ==>
      var c := Expand(file, PagesAt(old(ram[..]), base, size / PAGE)).value;
      PagesAt(ram[..], base, size / PAGE) == c.pages && xs == c.sum
    ensures SameOutside(old(ram[..]), ram[..], base, base + size)
  {
    hide XorSum, Xor, Zeros, IsZero, Expand, ExpandPage, PagesAt, SameOutside;
    ghost var n, start := size / PAGE, ram[..];
    ghost var before := PagesAt(start, base, n);
    ghost var done: seq<Page>, k: nat := [], 0;
    var index: nat, addr := 0, 0;
    xs := Zeros(8);
    SameAtFirst(start, base);
    ExpandNothing(file, PagesAt(start, base, 0));
    while addr < size
      invariant 0 <= k <= n && addr == k * PAGE && |xs| == 8
      invariant Expand(file, before[..k]) == Some(Cursor(index, done, xs))
      invariant PagesAt(ram[..], base, k) == done
      invariant SameOutside(start, ram[..], base, base + addr)
    {
      ghost var ram0 := ram[..];
      ExpandNext(file, before, k, Cursor(index, done, xs));
      SamePage(start, ram0, base, k, n);
      assert ram0[base + addr..base + addr + PAGE] == ram[base + addr..base + addr + PAGE];
      ok, index, xs := LoadPage(file, ram, base + addr, index, xs, done);
      SameAfter(start, ram0, ram[..], base, base + addr, base + addr + PAGE, base + size);
      if !ok {
        StopsShort(file, before, k + 1);
        return;
      }
      NextPage(ram0, ram[..], base, k);
      assert ram[..][base + addr..base + addr + PAGE] == ram[base + addr..base + addr + PAGE];
      done := done + [ram[base + addr..base + addr + PAGE]];
      addr, k := addr + PAGE, k + 1;
    }
    assert before[..n] == before;
    ok := file[index..] == xs;
  }

  lemma ExpandNothing(file: seq<Byte>, none: seq<Page>)
    requires none == []
    ensures Expand(file, []) == Some(Cursor(0, none, Zeros(8)))
  {
  }

  lemma ExpandNext(file: seq<Byte>, before: seq<Page>, k: nat, c: Cursor)
    requires k < |before| && Expand(file, before[..k]) == Some(c)
    ensures Expand(file, before[..k + 1]) == ExpandPage(file, c, before[k])
  {
    assert before[..k + 1][..k] == before[..k];
  }

  lemma SameAtFirst(a: seq<Byte>, base: nat)
    ensures SameOutside(a, a, base, base)
  {
  }

  lemma SameAfter(a: seq<Byte>, b: seq<Byte>, c: seq<Byte>, lo: nat, mid: nat, hi: nat, end: nat)
    requires SameOutside(a, b, lo, mid) && SameOutside(b, c, mid, hi) && lo <= mid <= hi <= end
    ensures SameOutside(a, c, lo, hi) && SameOutside(a, c, lo, end)
  {
  }

  /** The loop body: one flag word, and the page when it is present. */
  method LoadPage(file: seq<Byte>, ram: array<Byte>, at: nat, index: nat, xs: seq<Byte>, ghost done: seq<Page>)
    returns (ok: bool, index': nat, xs': seq<Byte>)
    requires at + PAGE <= ram.Length && |xs| == 8
    modifies ram
    ensures |xs'| == 8 && SameOutside(old(ram[..]), ram[..], at, at + PAGE)
    ensures ExpandPage(file, Cursor(index, done, xs), old(ram[at..at + PAGE]))
         == if ok then Some(Cursor(index', done + [ram[at..at + PAGE]], xs')) else None
  {
    hide XorSum, Xor, Zeros, IsZero;
    index', xs' := index, xs;
    if |file| < index + 8 {
      return false, index', xs';
    }
    var present := file[index..index + 8];
    index' := index + 8;
    if !IsZero(present) {
      if |file| < index' + PAGE {
        return false, index', xs';
      }
      var page := file[index'..index' + PAGE];
      CopyPage(ram, at, page);
      var sum := SumLoop(page, 8);
      xs' := Xor(xs, sum);
      index' := index' + PAGE;
    }
    ok := true;
  }

  /** Nothing but [lo, hi) differs. */
  ghost predicate SameOutside(a: seq<Byte>, b: seq<Byte>, lo: nat, hi: nat) {
    |a| == |b| && forall i :: 0 <= i < |a| && !(lo <= i < hi) ==> a[i] == b[i]
  }

  lemma SamePage(start: seq<Byte>, now: seq<Byte>, base: nat, k: nat, n: nat)
    requires k < n && base + n * PAGE <= |start| && SameOutside(start, now, base, base + k * PAGE)
    ensures base + k * PAGE + PAGE <= |now| && now[base + k * PAGE..base + k * PAGE + PAGE] == PagesAt(start, base, n)[k]
  {
    EarlierPage(k, n);
  }

  lemma NextPage(ram0: seq<Byte>, ram: seq<Byte>, base: nat, k: nat)
    requires base + k * PAGE + PAGE <= |ram0| && SameOutside(ram0, ram, base + k * PAGE, base + k * PAGE + PAGE)
    ensures PagesAt(ram, base, k + 1) == PagesAt(ram0, base, k) + [ram[base + k * PAGE..base + k * PAGE + PAGE]]
  {
    forall j | 0 <= j < k
      ensures PagesAt(ram, base, k + 1)[j] == PagesAt(ram0, base, k)[j]
    {
      EarlierPage(j, k);
    }
  }

  lemma EarlierPage(j: nat, k: nat)
    requires j < k
    ensures j * PAGE + PAGE <= k * PAGE
  {
  }

  lemma {:induction false} StopsShort(file: seq<Byte>, before: seq<Page>, k: nat)
    requires k <= |before| && Expand(file, before[..k]) == None
    ensures Expand(file, before) == None
    decreases |before| - k
  {
    hide ExpandPage;
    if k < |before| {
      assert before[..k + 1][..k] == before[..k];
      StopsShort(file, before, k + 1);
    } else {
      assert before[..k] == before;
    }
  }

  // ---- Round trip ----------------------------------------------------------------------------

  lemma ExpandZero(head: seq<Byte>, tail: seq<Byte>, c: Cursor, before: Page)
    requires c.index == |head| && |c.sum| == 8
    ensures ExpandPage(head + (Zeros(8) + tail), c, before) == Some(Cursor(|head| + 8, c.pages + [before], c.sum))
  {
    hide XorSum, Xor;
    assert (head + (Zeros(8) + tail))[|head|..|head| + 8] == Zeros(8);
  }

  lemma ExpandPresent(head: seq<Byte>, page: Page, tail: seq<Byte>, c: Cursor, before: Page)
    requires c.index == |head| && |c.sum| == 8
    ensures ExpandPage(head + (PRESENT + page + tail), c, before)
         == Some(Cursor(|head| + 8 + PAGE, c.pages + [page], Xor(c.sum, XorSum(page, 8))))
  {
    hide XorSum, Xor;
    var file, i := head + (PRESENT + page + tail), |head| + 8;
    assert file[|head|..i] == PRESENT;
    assert PRESENT[0] == 1 && !IsZero(PRESENT);
    assert file[i..i + PAGE] == page;
  }

  lemma ExpandRecord(head: seq<Byte>, page: Page, tail: seq<Byte>, c: Cursor, before: Page)
    requires c.index == |head| && |c.sum| == 8
    ensures ExpandPage(head + (Record(page) + tail), c, before)
         == Some(Cursor(|head + Record(page)|, c.pages + [if IsZero(page) then before else page], Xor(c.sum, XorSum(page, 8))))
  {
    hide XorSum, Xor, ExpandPage;
    if IsZero(page) {
      ExpandZero(head, tail, c, before);
      SumZeros(page, 8);
      XorZero(c.sum);
    } else {
      ExpandPresent(head, page, tail, c, before);
    }
  }

  /** Reading the records of an image gives its non-zero pages over what was there, and its checksum. */
  lemma {:induction false} ExpandRecords(pages: seq<Page>, before: seq<Page>, tail: seq<Byte>)
    requires |pages| == |before|
    ensures Expand(Records(pages) + tail, before)
         == Some(Cursor(|Records(pages)|, Overlay(pages, before), PagesSum(pages, 8)))
    decreases |pages|
  {
    hide ExpandPage, Record, XorSum, Xor, Zeros, IsZero;
    if pages != [] {
      var k := |pages| - 1;
      var head, last := Records(pages[..k]), Record(pages[k]);
      assert Records(pages) + tail == head + (last + tail);
      ExpandRecords(pages[..k], before[..k], last + tail);
      ExpandRecord(head, pages[k], tail, Expand(head + (last + tail), before[..k]).value, before[k]);
      assert Overlay(pages, before) == Overlay(pages[..k], before[..k]) + [if IsZero(pages[k]) then before[k] else pages[k]];
    } else {
      assert Overlay(pages, before) == [];
      assert Records(pages) + tail == tail;
    }
  }

  /** A compressed image is always accepted, and comes back exactly when the target was zero where it is zero. */
  lemma SimpleRoundTrip(pages: seq<Page>, before: seq<Page>)
    requires |pages| == |before|
    ensures Accepts(SimpleFile(pages), before)
    ensures Expand(SimpleFile(pages), before).value.pages == pages
        <==> forall k :: 0 <= k < |pages| && IsZero(pages[k]) ==> IsZero(before[k])
  {
    ExpandRecords(pages, before, PagesSum(pages, 8));
    OverlayExact(pages, before);
  }

  /** Two images with one file are one image. */
  lemma SimpleInjective(a: seq<Page>, b: seq<Page>)
    requires |a| == |b| && SimpleFile(a) == SimpleFile(b)
    ensures a == b
  {
    var blank: seq<Page> := seq(|a|, _ => Zeros(PAGE));
    SimpleRoundTrip(a, blank);
    SimpleRoundTrip(b, blank);
  }

  /** The memory part of save_checkpoint. */
  method SaveCheckpoint(ram: array<Byte>) returns (low: seq<Byte>, high: seq<Byte>)
    requires HIGHMEM_BEGIN + HIGHMEM_SIZE <= ram.Length
    ensures low == SimpleFile(PagesAt(ram[..], LOWMEM_BEGIN, LOWMEM_SIZE / PAGE))
    ensures high == SimpleFile(PagesAt(ram[..], HIGHMEM_BEGIN, HIGHMEM_SIZE / PAGE))
  {
    var xs;
    low, xs := SimpleCompress(ram, LOWMEM_BEGIN, LOWMEM_SIZE);
    high, xs := SimpleCompress(ram, HIGHMEM_BEGIN, HIGHMEM_SIZE);
  }

  /** The memory part of restore_checkpoint, on zeroed RAM: both files of an image are accepted and
      the image comes back, at both ends of the gap between low and high memory. */
  method RestoreCheckpoint(low: seq<Byte>, high: seq<Byte>, ram: array<Byte>, ghost image: seq<Byte>) returns (ok: bool)
    requires HIGHMEM_BEGIN + HIGHMEM_SIZE <= ram.Length == |image|
    requires forall i :: 0 <= i < ram.Length ==> ram[i] == 0
    requires low == SimpleFile(PagesAt(image, LOWMEM_BEGIN, LOWMEM_SIZE / PAGE))
    requires high == SimpleFile(PagesAt(image, HIGHMEM_BEGIN, HIGHMEM_SIZE / PAGE))
    modifies ram
    ensures ok
    ensures PagesAt(ram[..], LOWMEM_BEGIN, LOWMEM_SIZE / PAGE) == PagesAt(image, LOWMEM_BEGIN, LOWMEM_SIZE / PAGE)
    ensures PagesAt(ram[..], HIGHMEM_BEGIN, HIGHMEM_SIZE / PAGE) == PagesAt(image, HIGHMEM_BEGIN, HIGHMEM_SIZE / PAGE)
  {
    hide SimpleFile, Accepts, Expand, PagesAt, IsZero, SameOutside;
    ghost var start := ram[..];
    BlankPages(start, LOWMEM_BEGIN, LOWMEM_SIZE / PAGE);
    BlankPages(start, HIGHMEM_BEGIN, HIGHMEM_SIZE / PAGE);
    SimpleRoundTrip(PagesAt(image, LOWMEM_BEGIN, LOWMEM_SIZE / PAGE), PagesAt(start, LOWMEM_BEGIN, LOWMEM_SIZE / PAGE));
    SimpleRoundTrip(PagesAt(image, HIGHMEM_BEGIN, HIGHMEM_SIZE / PAGE), PagesAt(start, HIGHMEM_BEGIN, HIGHMEM_SIZE / PAGE));
    var okLow, okHigh, xs;
    okLow, xs := SimpleDecompress(low, ram, LOWMEM_BEGIN, LOWMEM_SIZE);
    ghost var mid := ram[..];
    OtherPages(start, mid, LOWMEM_BEGIN, LOWMEM_BEGIN + LOWMEM_SIZE, HIGHMEM_BEGIN, HIGHMEM_SIZE / PAGE);
    okHigh, xs := SimpleDecompress(high, ram, HIGHMEM_BEGIN, HIGHMEM_SIZE);
    OtherPages(mid, ram[..], HIGHMEM_BEGIN, HIGHMEM_BEGIN + HIGHMEM_SIZE, LOWMEM_BEGIN, LOWMEM_SIZE / PAGE);
    ok := okLow && okHigh;
  }

  lemma BlankPages(ram: seq<Byte>, base: nat, n: nat)
    requires base + n * PAGE <= |ram| && forall i :: 0 <= i < |ram| ==> ram[i] == 0
    ensures forall k :: 0 <= k < n ==> IsZero(PagesAt(ram, base, n)[k])
  {
  }

  lemma OtherPages(a: seq<Byte>, b: seq<Byte>, lo: nat, hi: nat, base: nat, n: nat)
    requires SameOutside(a, b, lo, hi) && base + n * PAGE <= |a| && (hi <= base || base + n * PAGE <= lo)
    ensures PagesAt(a, base, n) == PagesAt(b, base, n)
  {
    forall k | 0 <= k < n
      ensures PagesAt(a, base, n)[k] == PagesAt(b, base, n)[k]
    {
      EarlierPage(k, n);
    }
  }
}
