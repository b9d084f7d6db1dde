/**
 The two checkpoint files, byte for byte: where in the file each page, flag, bit and number lies.
 */
module FileLayout {
  import opened Pages
  import opened LittleEndian
  import opened Checkpoint
  import opened BitmapFormat

  /** How many of the first k pages are not zero. */
  function Dirty(img: seq<Page>, k: nat): nat
    requires k <= |img|
  {
    if k == 0 then 0 else Dirty(img, k - 1) + if IsZero(img[k - 1]) then 0 else 1
  }

  lemma {:induction false} DirtyPrefix(img: seq<Page>, n: nat, k: nat)
    requires k <= n <= |img|
    ensures Dirty(img[..n], k) == Dirty(img, k)
    decreases k
  {
    hide IsZero;
    if k > 0 {
      DirtyPrefix(img, n, k - 1);
      assert img[..n][k - 1] == img[k - 1];
    }
  }

  /** The xor of the words of all pages. */
  ghost predicate SumOf(img: seq<Page>, n: WordBytes, b: seq<Byte>) { Whole(|Join(img)|, n) && b == XorSum(Join(img), n) }

  lemma Middle(a: seq<Byte>, b: seq<Byte>, c: seq<Byte>)
    ensures (a + b + c)[|a|..|a| + |b|] == b
  {
  }

  // ---- Records --------------------------------------------------------------------------------

  function RecordOffset(pages: seq<Page>, k: nat): nat
    requires k <= |pages|
  {
    8 * k + PAGE * Dirty(pages, k)
  }

  /** An eight-byte flag, 1 or 0, and after a 1 the page. */
  ghost predicate HasRecord(file: seq<Byte>, at: nat, page: Page) {
    && at + 8 <= |file| && LeValue(file[at..at + 8]) == (if IsZero(page) then 0 else 1)
    && (!IsZero(page) ==> at + 8 + PAGE <= |file| && file[at + 8..at + 8 + PAGE] == page)
  }

  lemma FlagValues()
    ensures LeValue(PRESENT) == 1 && LeValue(Zeros(8)) == 0
  {
    ZeroValue(Zeros(8));
    ZeroValue(PRESENT[1..]);
  }

  lemma {:induction false} RecordsSize(pages: seq<Page>)
    ensures |Records(pages)| == RecordOffset(pages, |pages|)
    decreases |pages|
  {
    hide IsZero;
    if pages != [] {
      var n := |pages| - 1;
      RecordsSize(pages[..n]);
      DirtyPrefix(pages, n, n);
    }
  }

  lemma RecordWritten(before: seq<Byte>, page: Page, after: seq<Byte>)
    ensures HasRecord(before + Record(page) + after, |before|, page)
  {
    hide IsZero, LeValue;
    FlagValues();
    var file, at := before + Record(page) + after, |before|;
    if IsZero(page) {
      assert file[at..at + 8] == Zeros(8);
    } else {
      assert file[at..at + 8] == PRESENT;
      assert file[at + 8..at + 8 + PAGE] == page;
    }
  }

  lemma {:induction false} RecordSplit(pages: seq<Page>, k: nat) returns (after: seq<Byte>)
    requires k < |pages|
    ensures Records(pages) == Records(pages[..k]) + Record(pages[k]) + after
    decreases |pages|
  {
    hide Record;
    var n := |pages| - 1;
    if k == n {
      after := [];
    } else {
      var rest := RecordSplit(pages[..n], k);
      assert pages[..n][..k] == pages[..k];
      after := rest + Record(pages[n]);
    }
  }

  /** The record file: record k follows k flags and the pages before it that are not zero, and the checksum ends the file. */
  lemma SimpleLayout(pages: seq<Page>, k: nat)
    requires k < |pages|
    ensures HasRecord(SimpleFile(pages), RecordOffset(pages, k), pages[k])
    ensures var n := RecordOffset(pages, |pages|);
            |SimpleFile(pages)| == n + 8 && SumOf(pages, 8, SimpleFile(pages)[n..])
  {
    hide Record, HasRecord, Records, XorSum, Join, PagesSum, Dirty;
    var sum := PagesSum(pages, 8);
    var after := RecordSplit(pages, k);
    RecordWritten(Records(pages[..k]), pages[k], after + sum);
    assert SimpleFile(pages) == Records(pages[..k]) + Record(pages[k]) + (after + sum);
    RecordsSize(pages[..k]);
    DirtyPrefix(pages, k, k);
    RecordsSize(pages);
    SumByPages(pages, 8);
  }

  // ---- The bitmap file ----------------------------------------------------------------------------

  lemma {:induction false} DataSplit(img: seq<Page>, k: nat) returns (after: seq<Byte>)
    requires k < |img| && !IsZero(img[k])
    ensures DirtyData(img) == DirtyData(img[..k]) + img[k] + after
    decreases |img|
  {
    hide IsZero;
    var n := |img| - 1;
    if k == n {
      after := [];
    } else {
      var rest := DataSplit(img[..n], k);
      assert img[..n][..k] == img[..k];
      after := rest + if IsZero(img[n]) then [] else img[n];
    }
  }

  lemma {:induction false} DataSize(img: seq<Page>)
    ensures |DirtyData(img)| == PAGE * Dirty(img, |img|)
    decreases |img|
  {
    hide IsZero;
    if img != [] {
      var n := |img| - 1;
      DataSize(img[..n]);
      DirtyPrefix(img, n, n);
    }
  }

  /** The header: memory size, where the data starts, the checksum, a bit per page, and padding up to a page boundary. */
  ghost predicate HasHeader(file: seq<Byte>, memSize: nat, img: seq<Page>, off: nat) {
    var m := (|img| + 7) / 8;
    && off % PAGE == 0 && 16 + m <= off < 16 + m + PAGE && |file| == off + PAGE * Dirty(img, |img|)
    && LeValue(file[0..8]) == memSize && LeValue(file[8..12]) == off && SumOf(img, 4, file[12..16])
    && (forall k: nat :: k < 8 * m ==> (Bit(file[16 + k / 8], k % 8) <==> k < |img| && !IsZero(img[k])))
    && (forall i :: 16 + m <= i < off ==> file[i] == 0)
  }

  lemma HeaderLayout(memSize: nat, img: seq<Page>)
    requires memSize < Power256(8) && DataOffset(|img|) < Power256(4)
    ensures HasHeader(BitmapFile(memSize, img), memSize, img, DataOffset(|img|))
  {
    hide Le, LeValue, IsZero, Marked, XorSum, Join, PagesSum, Bit, DirtyData, Power256;
    var file, m, off := BitmapFile(memSize, img), BitmapSize(|img|), DataOffset(|img|);
    OffsetRounded(|img|);
    LeRoundTrip(memSize, 8);
    LeRoundTrip(off, 4);
    SumByPages(img, 4);
    DataSize(img);
    assert file[0..8] == Le(memSize, 8);
    assert file[8..12] == Le(off, 4);
    assert file[12..16] == PagesSum(img, 4);
    assert file[16..16 + m] == BitmapOf(img);
    assert file[16 + m..off] == Zeros(off - 16 - m);
    forall i | 16 + m <= i < off
      ensures file[i] == 0
    {
      assert file[16 + m..off][i - 16 - m] == file[i];
    }
    forall k: nat | k < 8 * m
      ensures Bit(file[16 + k / 8], k % 8) <==> k < |img| && !IsZero(img[k])
    {
      assert file[16..16 + m][k / 8] == file[16 + k / 8];
      MarkedMeans(m, img, k);
    }
  }

  lemma OffsetRounded(n: nat)
    ensures var off, m := DataOffset(n), BitmapSize(n); off % PAGE == 0 && 16 + m <= off < 16 + m + PAGE && n <= 8 * m
  {
  }

  /** Guest memory: 256 MiB from address 0 on, and the rest from 0x9000_0000 on. */
  lemma ImageLayout(ram: seq<Byte>, n: nat, k: nat, j: nat)
    requires Fits(|ram|, n) && k < n && j < 0x1000
    ensures var at := 0x1000 * k + j;
            var a := if at < 0x1000_0000 then at else at - 0x1000_0000 + 0x9000_0000;
            a < |ram| && Image(ram, n)[k][j] == ram[a]
  {
  }

  /** Page k, if it is not zero, follows the earlier pages that are not zero. */
  lemma PageLayout(memSize: nat, img: seq<Page>, k: nat)
    requires k < |img| && !IsZero(img[k])
    ensures var file, at := BitmapFile(memSize, img), DataOffset(|img|) + PAGE * Dirty(img, k);
            at + PAGE <= |file| && file[at..at + PAGE] == img[k]
  {
    hide Header, IsZero, DirtyData, DataOffset, Dirty;
    var after := DataSplit(img, k);
    DataSize(img[..k]);
    DirtyPrefix(img, k, k);
    var head, before := Header(memSize, img), DirtyData(img[..k]);
    assert BitmapFile(memSize, img) == (head + before) + img[k] + after;
    Middle(head + before, img[k], after);
  }
}
