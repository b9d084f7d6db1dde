/**
 The bitmap memory file of a checkpoint: save_memory_qemu_format and restore_memory_qemu_format.
 Guest memory is one run of pages split over low and high RAM.
 */
module BitmapFormat {
  import opened Wrappers
  import opened Pages
  import opened Checkpoint
  import opened LittleEndian
  import W = Words

  const LOW_PAGES: nat := 0x10000

  /** Beyond this the int page counter of the original's reader overflows. */
  const MEMORY_LIMIT: nat := 0x800_0000_0000

  function PageCount(memSize: nat): nat { (memSize + PAGE - 1) / PAGE }

  function BitmapSize(n: nat): nat { (n + 7) / 8 }

  /** The header rounded up to a page. */
  function DataOffset(n: nat): nat { (16 + BitmapSize(n) + PAGE - 1) / PAGE * PAGE }

  /** Where page k of guest memory lies in RAM. */
  function PageAddr(k: nat): nat {
    if k < LOW_PAGES then k * PAGE else HIGHMEM_BEGIN + (k - LOW_PAGES) * PAGE
  }

  predicate Fits(size: nat, n: nat) { n == 0 || PageAddr(n - 1) + PAGE <= size }

  /** The first n pages of guest memory. */
  function Image(ram: seq<Byte>, n: nat): (r: seq<Page>)
    requires Fits(|ram|, n)
    ensures |r| == n
  {
    seq(n, k requires 0 <= k < n => ImagePage(ram, k, n))
  }

  function ImagePage(ram: seq<Byte>, k: nat, n: nat): Page
    requires k < n && Fits(|ram|, n)
  {
    ram[PageAddr(k)..PageAddr(k) + PAGE]
  }

  // ---- The bitmap --------------------------------------------------------------------------------

  predicate Bit(b: Byte, j: nat) { W.Shr(b, j) % 2 == 1 }

  /** b | 1 << j. */
  function SetBit(b: Byte, j: nat): Byte
    requires j < 8
  {
    assert W.Pow2(8) == 256;
    assert W.Pow2(j) < 256 by { W.Pow2Mono(j, 7); }
    W.OrBound(b, W.Pow2(j), 8);
    W.BitOr(b, W.Pow2(j))
  }

  predicate BitAt(bmp: seq<Byte>, k: nat)
    requires k < 8 * |bmp|
  {
    Bit(bmp[k / 8], k % 8)
  }

  function SetBitAt(bmp: seq<Byte>, k: nat): (r: seq<Byte>)
    requires k < 8 * |bmp|
    ensures |r| == |bmp|
  {
    bmp[k / 8 := SetBit(bmp[k / 8], k % 8)]
  }

  lemma SetBitBits(b: Byte, j: nat, i: nat)
    requires j < 8
    ensures Bit(SetBit(b, j), i) <==> i == j || Bit(b, i)
  {
    W.OrBit(b, W.Pow2(j), i);
    W.PowerBit(j, i);
  }

  lemma SetBitMeans(bmp: seq<Byte>, k: nat, i: nat)
    requires k < 8 * |bmp| && i < 8 * |bmp|
    ensures BitAt(SetBitAt(bmp, k), i) <==> i == k || BitAt(bmp, i)
  {
    hide Bit, SetBit;
    if i / 8 == k / 8 {
      SetBitBits(bmp[k / 8], k % 8, i % 8);
    }
  }

  /** The bitmap after the pages of img were looked at. */
  function Marked(bmp: seq<Byte>, img: seq<Page>): (r: seq<Byte>)
    requires |img| <= 8 * |bmp|
    ensures |r| == |bmp|
  {
    if img == [] then bmp
    else
      var k := |img| - 1;
      var b := Marked(bmp, img[..k]);
      if IsZero(img[k]) then b else SetBitAt(b, k)
  }

  /** Its bits are the pages that are not zero. */
  lemma {:induction false} MarkedMeans(m: nat, img: seq<Page>, i: nat)
    requires |img| <= 8 * m && i < 8 * m
    ensures BitAt(Marked(Zeros(m), img), i) <==> i < |img| && !IsZero(img[i])
    decreases |img|
  {
    hide BitAt, SetBitAt, IsZero;
    if img == [] {
      ZeroBitmap(m, i);
    } else {
      var k := |img| - 1;
      MarkedMeans(m, img[..k], i);
      SetBitMeans(Marked(Zeros(m), img[..k]), k, i);
    }
  }

  lemma ZeroBitmap(m: nat, i: nat)
    requires i < 8 * m
    ensures !BitAt(Zeros(m), i)
  {
    W.ZeroShift(i % 8);
  }

  // ---- The file ------------------------------------------------------------------------------------

  /** The pages that are not zero, one after the other. */
  function DirtyData(img: seq<Page>): seq<Byte> {
    if img == [] then []
    else DirtyData(img[..|img| - 1]) + if IsZero(img[|img| - 1]) then [] else img[|img| - 1]
  }

  function BitmapOf(img: seq<Page>): (r: seq<Byte>)
    ensures |r| == BitmapSize(|img|)
  {
    Marked(Zeros(BitmapSize(|img|)), img)
  }

  function Header(memSize: nat, img: seq<Page>): (r: seq<Byte>)
    ensures |r| == DataOffset(|img|)
  {
    Le(memSize, 8) + Le(DataOffset(|img|), 4) + PagesSum(img, 4) + BitmapOf(img)
      + Zeros(DataOffset(|img|) - 16 - BitmapSize(|img|))
  }

  function BitmapFile(memSize: nat, img: seq<Page>): seq<Byte> { Header(memSize, img) + DirtyData(img) }

  /** What has been gathered once the pages of img were looked at. */
  ghost predicate Saved(img: seq<Page>, m: nat, bmp: seq<Byte>, data: seq<Byte>, sum: seq<Byte>) {
    |img| <= 8 * m && bmp == Marked(Zeros(m), img) && data == DirtyData(img) && sum == PagesSum(img, 4)
  }

  /** Looking at one page: mark it, append it, add it to the checksum. */
  method SavePage(ram: array<Byte>, addr: nat, k: nat, m: nat, bmp: seq<Byte>, data: seq<Byte>, sum: seq<Byte>, ghost img: seq<Page>)
    returns (bmp': seq<Byte>, data': seq<Byte>, sum': seq<Byte>)
    requires addr + PAGE <= ram.Length && k < 8 * m && k == |img| && Saved(img, m, bmp, data, sum)
    ensures Saved(img + [ram[addr..addr + PAGE]], m, bmp', data', sum')
  {
    hide XorSum, Zeros, SetBitAt, Xor;
    ghost var img' := img + [ram[addr..addr + PAGE]];
    assert img'[..k] == img && img'[k] == ram[addr..addr + PAGE];
    bmp', data' := bmp, data;
    if ram[addr..addr + PAGE] != Zeros(PAGE) {
      bmp' := SetBitAt(bmp, k);
      data' := data + ram[addr..addr + PAGE];
    }
    var s := SumLoop(ram[addr..addr + PAGE], 4);
    sum' := Xor(sum, s);
  }

  /** Memory that can be saved: with less than low memory the original marks pages past its bitmap, and the data must start
      where a 32-bit offset can say. */
  predicate Savable(memSize: nat, ramSize: nat) {
    LOWMEM_SIZE <= memSize && HeaderFits(memSize) && Fits(ramSize, PageCount(memSize))
  }

  predicate HeaderFits(memSize: nat) {
    memSize < 0x1_0000_0000_0000_0000 && DataOffset(PageCount(memSize)) < 0x1_0000_0000
  }

  /** save_memory_qemu_format. */
  method SaveMemory(ram: array<Byte>, memSize: nat) returns (ok: bool, file: seq<Byte>)
    ensures ok == Savable(memSize, ram.Length)
    ensures ok ==> file == BitmapFile(memSize, Image(ram[..], PageCount(memSize)))
  {
    ok, file := Savable(memSize, ram.Length), [];
    if ok {
      file := SaveLoops(ram, memSize);
    }
  }

  /** Low memory, then high memory, then the header in front. */
  method SaveLoops(ram: array<Byte>, memSize: nat) returns (file: seq<Byte>)
    requires Savable(memSize, ram.Length)
    ensures file == BitmapFile(memSize, Image(ram[..], PageCount(memSize)))
  {
    hide Saved, Image, BitmapFile, PackFile, Zeros, BitmapSize;
    var n := PageCount(memSize);
    var m := BitmapSize(n);
    EnoughBits(n);
    ghost var start, k: nat := ram[..], 0;
    var bmp, data, sum := Zeros(m), [], Zeros(4);
    ImageNone(start, m);
    var addr := 0;
    while addr < LOWMEM_SIZE
      invariant 0 <= k <= LOW_PAGES && addr == k * PAGE
      invariant Fits(|start|, k) && Saved(Image(start, k), m, bmp, data, sum)
    {
      ImageNext(start, k, n);
      assert ram[addr..addr + PAGE] == start[addr..addr + PAGE];
      bmp, data, sum := SavePage(ram, addr, addr / PAGE, m, bmp, data, sum, Image(start, k));
      addr, k := addr + PAGE, k + 1;
    }
    addr := HIGHMEM_BEGIN;
    while addr < HIGHMEM_BEGIN + memSize - LOWMEM_SIZE
      invariant LOW_PAGES <= k <= n && addr == HIGHMEM_BEGIN + (k - LOW_PAGES) * PAGE
      invariant Fits(|start|, k) && Saved(Image(start, k), m, bmp, data, sum)
    {
      ImageNext(start, k, n);
      assert ram[addr..addr + PAGE] == start[addr..addr + PAGE];
      bmp, data, sum := SavePage(ram, addr, (addr - HIGHMEM_BEGIN + LOWMEM_SIZE) / PAGE, m, bmp, data, sum, Image(start, k));
      addr, k := addr + PAGE, k + 1;
    }
    PackedFile(memSize, Image(start, n), sum, bmp, data);
    file := PackFile(memSize, n, sum, bmp, data);
  }

  lemma EnoughBits(n: nat)
    ensures n <= 8 * BitmapSize(n)
  {
  }

  function PackFile(memSize: nat, n: nat, sum: seq<Byte>, bmp: seq<Byte>, data: seq<Byte>): seq<Byte>
  {
    var headerSize := 16 + BitmapSize(n);
    var dataOff := DataOffset(n);
    Le(memSize, 8) + Le(dataOff, 4) + sum + bmp + Zeros(dataOff - headerSize) + data
  }

  lemma PackedFile(memSize: nat, img: seq<Page>, sum: seq<Byte>, bmp: seq<Byte>, data: seq<Byte>)
    requires Saved(img, BitmapSize(|img|), bmp, data, sum)
    ensures PackFile(memSize, |img|, sum, bmp, data) == BitmapFile(memSize, img)
  {
  }

  lemma ImageNone(ram: seq<Byte>, m: nat)
    ensures Saved(Image(ram, 0), m, Zeros(m), [], Zeros(4))
  {
  }

  lemma ImageNext(ram: seq<Byte>, k: nat, n: nat)
    requires k < n && Fits(|ram|, n)
    ensures Fits(|ram|, k) && Fits(|ram|, k + 1) && PageAddr(k) + PAGE <= |ram|
    ensures Image(ram, k + 1) == Image(ram, k) + [ram[PageAddr(k)..PageAddr(k) + PAGE]]
  {
    AddrMono(k, n - 1);
    if k > 0 { AddrMono(k - 1, k); }
  }

  lemma AddrMono(j: nat, k: nat)
    requires j <= k
    ensures PageAddr(j) <= PageAddr(k) && (j < k ==> PageAddr(j) + PAGE <= PageAddr(k))
  {
  }

  // ---- Reading it back ------------------------------------------------------------------------------

  datatype Place = Place(pos: nat, pages: seq<Page>)

  /** The pages left in place of `before`: those with their bit set come from the data, in order. */
  function RestorePages(bmp: seq<Byte>, data: seq<Byte>, before: seq<Page>): (r: Option<Place>)
    requires |before| <= 8 * |bmp|
    ensures r.Some? ==> r.value.pos <= |data| && |r.value.pages| == |before|
  {
    if before == [] then Some(Place(0, []))
    else
      var k := |before| - 1;
      match RestorePages(bmp, data, before[..k])
      case None => None
      case Some(c) => RestorePage(BitAt(bmp, k), data, c, before[k])
  }

  function RestorePage(dirty: bool, data: seq<Byte>, c: Place, before: Page): (r: Option<Place>)
    requires c.pos <= |data|
    ensures r.Some? ==> r.value.pos <= |data| && |r.value.pages| == |c.pages| + 1
  {
    if !dirty then Some(c.(pages := c.pages + [before]))
    else if |data| < c.pos + PAGE then None
    else Some(Place(c.pos + PAGE, c.pages + [data[c.pos..c.pos + PAGE]]))
  }

  function MemSize(file: seq<Byte>): nat
    requires |file| >= 16
  {
    LeValue(file[..8])
  }

  function Data(file: seq<Byte>): seq<Byte>
    requires |file| >= 16
  {
    var off := LeValue(file[8..12]);
    if off <= |file| then file[off..] else []
  }

  /** The header and the bitmap can be read, and the memory they describe is there. */
  predicate Readable(file: seq<Byte>, ramSize: nat) {
    && |file| >= 16 && 1 <= MemSize(file) <= MEMORY_LIMIT
    && var n := PageCount(MemSize(file));
       16 + BitmapSize(n) <= |file| && Fits(ramSize, n)
  }

  function Contents(file: seq<Byte>, before: seq<Page>): Option<Place>
    requires |file| >= 16 && 16 + BitmapSize(|before|) <= |file|
  {
    EnoughBits(|before|);
    RestorePages(file[16..16 + BitmapSize(|before|)], Data(file), before)
  }

  /** Whether byte i of RAM belongs to the first n pages of guest memory. */
  predicate Covered(i: nat, n: nat) {
    || (i < LOWMEM_SIZE && i < n * PAGE)
    || (HIGHMEM_BEGIN <= i < HIGHMEM_BEGIN + n * PAGE - LOWMEM_SIZE)
  }

  ghost predicate SameBeyond(a: seq<Byte>, b: seq<Byte>, n: nat) {
    |a| == |b| && forall i :: 0 <= i < |a| && !Covered(i, n) ==> a[i] == b[i]
  }

  /** restore_memory_qemu_format: `ok` is false where the original stops on a failed read; a wrong checksum only warns. */
  method RestoreMemory(file: seq<Byte>, ram: array<Byte>) returns (ok: bool, warned: bool)
    modifies ram
    ensures ok ==> Readable(file, ram.Length)
    ensures Readable(file, ram.Length) ==>
      var n := PageCount(MemSize(file));
      var result := Contents(file, Image(old(ram[..]), n));
      && ok == result.Some?
      && SameBeyond(old(ram[..]), ram[..], n)
      && (ok ==> Image(ram[..], n) == result.value.pages)
      && (ok ==> warned == (file[12..16] != PagesSum(result.value.pages, 4)))
  {
    hide RestorePage, PagesSum, XorSum, Zeros, Xor, Image, SameBeyond, RestorePages, LeValue, BitAt, BitmapSize;
    warned := false;
    if !Readable(file, ram.Length) {
      return false, false;
    }
    var n := PageCount(MemSize(file));
    var bmp, data := file[16..16 + BitmapSize(n)], Data(file);
    EnoughBits(n);
    ghost var start := ram[..];
    ghost var before := Image(start, n);
    ghost var done: seq<Page> := [];
    var p, i: nat, pos: nat, calSum := 0, 0, 0, Zeros(4);
    RestoreNone(bmp, data, start);
    while i < n
      invariant 0 <= i <= n && p == PageAddr(i) && Fits(|start|, i) && |calSum| == 4 && pos <= |data|
      invariant RestorePages(bmp, data, before[..i]) == Some(Place(pos, done)) && calSum == PagesSum(done, 4)
      invariant Image(ram[..], i) == done
      invariant SameBeyond(start, ram[..], i)
    {
      ghost var ram0 := ram[..];
      var dirty := BitAt(bmp, i);
      UntouchedPage(start, ram0, i, n);
      assert ram0[p..p + PAGE] == ram[p..p + PAGE];
      RestoreNext(bmp, data, before, i, Place(pos, done));
      ok, pos := FetchPage(dirty, data, ram, p, pos, done);
      PageReplaced(start, ram0, ram[..], i, n);
      if !ok {
        EndsShort(bmp, data, before, i + 1);
        return;
      }
      assert ram[..][p..p + PAGE] == ram[p..p + PAGE];
      var s := SumLoop(ram[p..p + PAGE], 4);
      SumNext(done, ram[p..p + PAGE]);
      calSum := Xor(calSum, s);
      done := done + [ram[p..p + PAGE]];
      i := i + 1;
      p := p + PAGE;
      if i * PAGE == LOWMEM_SIZE { p := HIGHMEM_BEGIN; }
    }
    assert before[..n] == before;
    ok, warned := true, file[12..16] != calSum;
  }

  method FetchPage(dirty: bool, data: seq<Byte>, ram: array<Byte>, p: nat, pos: nat, ghost done: seq<Page>) returns (ok: bool, pos': nat)
    requires p + PAGE <= ram.Length && pos <= |data|
    modifies ram
    ensures SameOutside(old(ram[..]), ram[..], p, p + PAGE) && pos' <= |data|
    ensures RestorePage(dirty, data, Place(pos, done), old(ram[p..p + PAGE]))
         == if ok then Some(Place(pos', done + [ram[p..p + PAGE]])) else None
  {
    pos' := pos;
    if dirty {
      if |data| < pos + PAGE {
        return false, pos;
      }
      CopyPage(ram, p, data[pos..pos + PAGE]);
      pos' := pos + PAGE;
    }
    ok := true;
  }

  lemma RestoreNone(bmp: seq<Byte>, data: seq<Byte>, ram: seq<Byte>)
    ensures RestorePages(bmp, data, []) == Some(Place(0, [])) && Image(ram, 0) == []
    ensures SameBeyond(ram, ram, 0) && PagesSum([], 4) == Zeros(4)
  {
  }

  lemma RestoreNext(bmp: seq<Byte>, data: seq<Byte>, before: seq<Page>, k: nat, c: Place)
    requires k < |before| <= 8 * |bmp| && RestorePages(bmp, data, before[..k]) == Some(c)
    ensures RestorePages(bmp, data, before[..k + 1]) == RestorePage(BitAt(bmp, k), data, c, before[k])
  {
    assert before[..k + 1][..k] == before[..k];
  }

  lemma {:induction false} EndsShort(bmp: seq<Byte>, data: seq<Byte>, before: seq<Page>, k: nat)
    requires k <= |before| <= 8 * |bmp| && RestorePages(bmp, data, before[..k]) == None
    ensures RestorePages(bmp, data, before) == None
    decreases |before| - k
  {
    hide RestorePage, BitAt;
    if k < |before| {
      assert before[..k + 1][..k] == before[..k];
      EndsShort(bmp, data, before, k + 1);
    } else {
      assert before[..k] == before;
    }
  }

  lemma SumNext(done: seq<Page>, page: Page)
    ensures PagesSum(done + [page], 4) == Xor(PagesSum(done, 4), XorSum(page, 4))
  {
    assert (done + [page])[..|done|] == done;
  }

  lemma UntouchedPage(start: seq<Byte>, now: seq<Byte>, k: nat, n: nat)
    requires k < n && Fits(|start|, n) && SameBeyond(start, now, k)
    ensures PageAddr(k) + PAGE <= |now| && now[PageAddr(k)..PageAddr(k) + PAGE] == Image(start, n)[k]
  {
    AddrMono(k, n - 1);
    var a := PageAddr(k);
    assert forall i :: a <= i < a + PAGE ==> !Covered(i, k);
    assert now[a..a + PAGE] == start[a..a + PAGE];
  }

  lemma PageReplaced(start: seq<Byte>, ram0: seq<Byte>, ram: seq<Byte>, k: nat, n: nat)
    requires k < n && Fits(|start|, n) && SameBeyond(start, ram0, k)
    requires SameOutside(ram0, ram, PageAddr(k), PageAddr(k) + PAGE)
    ensures Fits(|ram|, k) && Fits(|ram|, k + 1)
    ensures Image(ram, k + 1) == Image(ram0, k) + [ram[PageAddr(k)..PageAddr(k) + PAGE]]
    ensures SameBeyond(start, ram, k + 1) && SameBeyond(start, ram, n)
  {
    ImageNext(ram, k, n);
    SameImage(ram0, ram, k);
    CoverGrows(k, n);
  }

  lemma SameImage(a: seq<Byte>, b: seq<Byte>, k: nat)
    requires Fits(|a|, k) && SameOutside(a, b, PageAddr(k), PageAddr(k) + PAGE)
    ensures Image(a, k) == Image(b, k)
  {
    forall j | 0 <= j < k
      ensures Image(a, k)[j] == Image(b, k)[j]
    {
      AddrMono(j, k);
      AddrMono(j, k - 1);
    }
  }

  lemma CoverGrows(k: nat, n: nat)
    requires k < n
    ensures forall i: nat :: Covered(i, k) || PageAddr(k) <= i < PageAddr(k) + PAGE ==> Covered(i, k + 1)
    ensures forall i: nat :: Covered(i, k + 1) ==> Covered(i, n)
  {
    forall i: nat | Covered(i, k) || PageAddr(k) <= i < PageAddr(k) + PAGE
      ensures Covered(i, k + 1)
    {
      assert (k + 1) * PAGE == k * PAGE + PAGE;
    }
  }

  // ---- Round trip ------------------------------------------------------------------------------------

  /** Reading by the bitmap of an image puts its non-zero pages over what was there. */
  lemma {:induction false} RestoreDirty(bmp: seq<Byte>, img: seq<Page>, before: seq<Page>, tail: seq<Byte>)
    requires |img| == |before| <= 8 * |bmp|
    requires forall k :: 0 <= k < |img| ==> (BitAt(bmp, k) <==> !IsZero(img[k]))
    ensures RestorePages(bmp, DirtyData(img) + tail, before) == Some(Place(|DirtyData(img)|, Overlay(img, before)))
    decreases |img|
  {
    hide BitAt, IsZero, RestorePage, Overlay;
    OverlayLast(img, before);
    if img != [] {
      var k := |img| - 1;
      var head, last := DirtyData(img[..k]), if IsZero(img[k]) then [] else img[k];
      assert DirtyData(img) + tail == head + (last + tail);
      RestoreDirty(bmp, img[..k], before[..k], last + tail);
      RestoreOne(img[k], head, tail, Overlay(img[..k], before[..k]), before[k]);
    }
  }

  lemma OverlayLast(img: seq<Page>, before: seq<Page>)
    requires |img| == |before|
    ensures Overlay(img, before) ==
            if img == [] then []
            else var k := |img| - 1; Overlay(img[..k], before[..k]) + [if IsZero(img[k]) then before[k] else img[k]]
  {
  }

  lemma RestoreOne(page: Page, head: seq<Byte>, tail: seq<Byte>, done: seq<Page>, before: Page)
    ensures var last := if IsZero(page) then [] else page;
            RestorePage(!IsZero(page), head + (last + tail), Place(|head|, done), before)
            == Some(Place(|head + last|, done + [if IsZero(page) then before else page]))
  {
    hide IsZero;
    assert (head + (page + tail))[|head|..|head| + PAGE] == page;
  }

  /** The fields of a written header. */
  lemma HeaderFields(memSize: nat, img: seq<Page>)
    requires HeaderFits(memSize) && |img| == PageCount(memSize)
    ensures var file := BitmapFile(memSize, img);
            && |file| >= 16 + BitmapSize(|img|) && MemSize(file) == memSize && Data(file) == DirtyData(img)
            && file[12..16] == PagesSum(img, 4)
            && file[16..16 + BitmapSize(|img|)] == BitmapOf(img)
  {
    hide Le, LeValue, PagesSum, BitmapOf, DirtyData, Zeros, BitmapSize;
    var file, off := BitmapFile(memSize, img), DataOffset(|img|);
    OffsetCovers(|img|);
    LeRoundTrip(memSize, 8);
    LeRoundTrip(off, 4);
    assert file[..8] == Le(memSize, 8);
    assert file[8..12] == Le(off, 4);
    assert file[12..16] == PagesSum(img, 4);
    assert file[16..16 + BitmapSize(|img|)] == BitmapOf(img);
    assert file[off..] == DirtyData(img);
  }

  lemma OffsetCovers(n: nat)
    ensures 16 + BitmapSize(n) <= DataOffset(n)
    ensures Power256(4) == 0x1_0000_0000 && Power256(8) == 0x1_0000_0000_0000_0000
  {
  }

  lemma OffsetFits(n: nat)
    requires n <= 0x8000_0000
    ensures DataOffset(n) < 0x1_0000_0000
  {
  }

  /** A saved image can be read wherever it fits, comes back exactly when RAM was zero where the image is
      zero, and then the checksums agree. */
  lemma BitmapRoundTrip(memSize: nat, img: seq<Page>, before: seq<Page>)
    requires 1 <= memSize <= MEMORY_LIMIT && |img| == |before| == PageCount(memSize)
    ensures var file := BitmapFile(memSize, img);
            && (forall size :: Fits(size, |img|) ==> Readable(file, size))
            && |file| >= 16 + BitmapSize(|img|) && MemSize(file) == memSize && file[12..16] == PagesSum(img, 4)
            && Contents(file, before) == Some(Place(|DirtyData(img)|, Overlay(img, before)))
            && (Overlay(img, before) == img
                <==> forall k :: 0 <= k < |img| && IsZero(img[k]) ==> IsZero(before[k]))
  {
    hide BitmapFile, PagesSum, Marked, DirtyData, BitAt, IsZero, RestorePages, MemSize, Data, BitmapSize;
    OffsetFits(|img|);
    HeaderFields(memSize, img);
    EnoughBits(|img|);
    var bmp := BitmapOf(img);
    forall k | 0 <= k < |img|
      ensures BitAt(bmp, k) <==> !IsZero(img[k])
    {
      MarkedMeans(BitmapSize(|img|), img, k);
    }
    RestoreDirty(bmp, img, before, []);
    assert DirtyData(img) + [] == DirtyData(img);
    OverlayExact(img, before);
  }

  /** Saving one machine's memory and restoring it into another's, zeroed, copies it; it fails only where the memory
      is not savable, too large for the reader's page counter, or does not fit. */
  method SaveAndRestore(from: array<Byte>, to: array<Byte>, memSize: nat) returns (ok: bool, warned: bool)
    requires from != to && forall i :: 0 <= i < to.Length ==> to[i] == 0
    modifies to
    ensures ok == (Savable(memSize, from.Length) && memSize <= MEMORY_LIMIT && Fits(to.Length, PageCount(memSize)))
    ensures ok ==> !warned && Image(to[..], PageCount(memSize)) == Image(from[..], PageCount(memSize))
  {
    hide BitmapFile, Image, Contents, PagesSum, IsZero, MemSize, Overlay, SameBeyond, DirtyData;
    var file;
    ok, file := SaveMemory(from, memSize);
    if !ok {
      return false, false;
    }
    ghost var n := PageCount(memSize);
    ghost var img := Image(from[..], n);
    HeaderFields(memSize, img);
    if memSize <= MEMORY_LIMIT && Fits(to.Length, n) {
      BlankImage(to[..], n);
      BitmapRoundTrip(memSize, img, Image(to[..], n));
    }
    ok, warned := RestoreMemory(file, to);
  }

  lemma BlankImage(ram: seq<Byte>, n: nat)
    requires Fits(|ram|, n) && forall i :: 0 <= i < |ram| ==> ram[i] == 0
    ensures forall k :: 0 <= k < n ==> IsZero(Image(ram, n)[k])
  {
    forall k | 0 <= k < n
      ensures IsZero(Image(ram, n)[k])
    {
      AddrMono(k, n - 1);
    }
  }
}
