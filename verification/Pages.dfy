/**
 Memory in 4 KiB pages and its xor checksums.  A machine word is kept as its bytes, lowest first,
 so that xor of words is xor of bytes.
 */
module Pages {
  import W = Words

  type Byte = W.Byte

  const PAGE: nat := 0x1000

  function Zeros(n: nat): (z: seq<Byte>)
    ensures |z| == n && forall i :: 0 <= i < n ==> z[i] == 0
  {
    seq(n, _ => 0)
  }

  type Page = p: seq<Byte> | |p| == PAGE witness Zeros(PAGE)

  /** Bytes per machine word: 4 for xorsum32, 8 for xor_sum. */
  type WordBytes = n: int | n == 4 || n == 8 witness 8

  predicate Whole(size: int, n: WordBytes) { if n == 4 then size % 4 == 0 else size % 8 == 0 }

  predicate IsZero(p: seq<Byte>) { p == Zeros(|p|) }

  function ByteXor(x: Byte, y: Byte): Byte {
    assert W.Pow2(8) == 256;
    W.XorBound(x, y, 8);
    W.BitXor(x, y)
  }

  function Xor(a: seq<Byte>, b: seq<Byte>): (r: seq<Byte>)
    requires |a| == |b|
    ensures |r| == |a| && forall i :: 0 <= i < |a| ==> r[i] == ByteXor(a[i], b[i])
  {
    seq(|a|, i requires 0 <= i < |a| => ByteXor(a[i], b[i]))
  }

  lemma XorAssoc(a: seq<Byte>, b: seq<Byte>, c: seq<Byte>)
    requires |a| == |b| == |c|
    ensures Xor(Xor(a, b), c) == Xor(a, Xor(b, c))
  {
    forall i | 0 <= i < |a|
      ensures Xor(Xor(a, b), c)[i] == Xor(a, Xor(b, c))[i]
    {
      W.XorAssoc(a[i], b[i], c[i]);
    }
  }

  lemma XorZero(a: seq<Byte>)
    ensures Xor(a, Zeros(|a|)) == a && Xor(Zeros(|a|), a) == a
  {
  }

  /** The xor of the n-byte words of data. */
  function XorSum(data: seq<Byte>, n: WordBytes): (r: seq<Byte>)
    requires Whole(|data|, n)
    ensures |r| == n
    decreases |data|
  {
    if |data| < n then Zeros(n)
    else
      var k := |data| - n;
      Xor(XorSum(data[..k], n), data[k..])
  }

  /** How many n-byte words of data have bit j of byte b set. */
  function Ones(data: seq<Byte>, n: WordBytes, b: nat, j: nat): nat
    requires Whole(|data|, n) && b < n
    decreases |data|
  {
    if |data| < n then 0
    else
      var k := |data| - n;
      Ones(data[..k], n, b, j) + W.Shr(data[k + b], j) % 2
  }

  /** The checksum is the parity of each bit position. */
  lemma {:induction false} SumIsParity(data: seq<Byte>, n: WordBytes, b: nat, j: nat)
    requires Whole(|data|, n) && b < n
    ensures W.Shr(XorSum(data, n)[b], j) % 2 == Ones(data, n, b, j) % 2
    decreases |data|
  {
    hide W.Shr, ByteXor, XorSum, Ones;
    NoWords(data, n, b, j);
    if |data| >= n {
      var k := |data| - n;
      LastWord(data, n, b, j);
      SumIsParity(data[..k], n, b, j);
      XorParity(XorSum(data[..k], n)[b], data[k + b], j, Ones(data[..k], n, b, j));
    }
  }

  lemma NoWords(data: seq<Byte>, n: WordBytes, b: nat, j: nat)
    requires Whole(|data|, n) && b < n
    ensures |data| < n ==> W.Shr(XorSum(data, n)[b], j) == 0 == Ones(data, n, b, j)
  {
    W.ZeroShift(j);
  }

  lemma LastWord(data: seq<Byte>, n: WordBytes, b: nat, j: nat)
    requires Whole(|data|, n) && b < n <= |data|
    ensures var k := |data| - n;
            && Whole(k, n) && XorSum(data, n)[b] == ByteXor(XorSum(data[..k], n)[b], data[k + b])
            && Ones(data, n, b, j) == Ones(data[..k], n, b, j) + W.Shr(data[k + b], j) % 2
  {
    hide W.Shr, ByteXor, XorSum, Ones;
    ShorterWhole(|data|, n);
    OnesStep(data, n, b, j);
    SumStep(data, n, b);
  }

  lemma ShorterWhole(size: nat, n: WordBytes)
    requires Whole(size, n) && size >= n
    ensures Whole(size - n, n)
  {
  }

  lemma OnesStep(data: seq<Byte>, n: WordBytes, b: nat, j: nat)
    requires Whole(|data|, n) && b < n <= |data| && Whole(|data| - n, n)
    ensures Ones(data, n, b, j) == Ones(data[..|data| - n], n, b, j) + W.Shr(data[|data| - n + b], j) % 2
  {
    hide W.Shr, Whole;
  }

  lemma SumStep(data: seq<Byte>, n: WordBytes, b: nat)
    requires Whole(|data|, n) && b < n <= |data| && Whole(|data| - n, n)
    ensures XorSum(data, n)[b] == ByteXor(XorSum(data[..|data| - n], n)[b], data[|data| - n + b])
  {
    hide ByteXor, Whole;
    var k := |data| - n;
    assert XorSum(data, n) == Xor(XorSum(data[..k], n), data[k..]);
    hide XorSum;
    assert data[k..][b] == data[k + b];
  }

  lemma XorParity(x: Byte, y: Byte, j: nat, ones: nat)
    requires W.Shr(x, j) % 2 == ones % 2
    ensures W.Shr(ByteXor(x, y), j) % 2 == (ones + W.Shr(y, j) % 2) % 2
  {
    hide W.Shr, W.BitXor;
    W.XorBit(x, y, j);
    SumParity(W.Shr(x, j), W.Shr(y, j), ones);
  }

  lemma SumParity(x: nat, y: nat, ones: nat)
    requires x % 2 == ones % 2
    ensures (x + y) % 2 == (ones + y % 2) % 2
  {
  }

  lemma SumLast(data: seq<Byte>, word: seq<Byte>, n: WordBytes)
    requires Whole(|data|, n) && |word| == n
    ensures Whole(|data + word|, n) && XorSum(data + word, n) == Xor(XorSum(data, n), word)
  {
    assert (data + word)[..|data|] == data && (data + word)[|data|..] == word;
  }

  lemma {:induction false} SumAppend(a: seq<Byte>, b: seq<Byte>, n: WordBytes)
    requires Whole(|a|, n) && Whole(|b|, n)
    ensures Whole(|a + b|, n) && XorSum(a + b, n) == Xor(XorSum(a, n), XorSum(b, n))
    decreases |b|
  {
    hide Xor, Zeros;
    if |b| < n {
      assert b == [] && a + b == a;
      XorZero(XorSum(a, n));
    } else {
      hide XorSum;
      var k := |b| - n;
      var c, w := b[..k], b[k..];
      assert b == c + w && a + b == (a + c) + w;
      SumAppend(a, c, n);
      SumLast(a + c, w, n);
      SumLast(c, w, n);
      XorAssoc(XorSum(a, n), XorSum(c, n), w);
    }
  }

  lemma {:induction false} SumZeros(data: seq<Byte>, n: WordBytes)
    requires Whole(|data|, n) && IsZero(data)
    ensures XorSum(data, n) == Zeros(n)
    decreases |data|
  {
    if |data| >= n {
      var k := |data| - n;
      SumZeros(data[..k], n);
      XorZero(Zeros(n));
      assert data[k..] == Zeros(n);
    }
  }

  lemma NothingSum(n: WordBytes)
    ensures XorSum([], n) == Zeros(n)
  {
  }

  /** xor_sum and xorsum32: a loop over the words. */
  method SumLoop(data: seq<Byte>, n: WordBytes) returns (r: seq<Byte>)
    requires Whole(|data|, n)
    ensures r == XorSum(data, n)
  {
    hide Xor, Zeros, XorSum;
    r := Zeros(n);
    NothingSum(n);
    var addr := 0;
    while addr < |data|
      invariant 0 <= addr <= |data| && Whole(addr, n) && r == XorSum(data[..addr], n)
    {
      assert data[..addr + n] == data[..addr] + data[addr..addr + n];
      SumLast(data[..addr], data[addr..addr + n], n);
      r := Xor(r, data[addr..addr + n]);
      addr := addr + n;
    }
    assert data[..addr] == data;
  }

  // ---- Sequences of pages -------------------------------------------------------------------

  function Join(pages: seq<Page>): (r: seq<Byte>)
    ensures |r| == |pages| * PAGE
  {
    if pages == [] then [] else Join(pages[..|pages| - 1]) + pages[|pages| - 1]
  }

  /** The checksum taken page by page. */
  function PagesSum(pages: seq<Page>, n: WordBytes): (r: seq<Byte>)
    ensures |r| == n
  {
    if pages == [] then Zeros(n)
    else Xor(PagesSum(pages[..|pages| - 1], n), XorSum(pages[|pages| - 1], n))
  }

  /** The checksum of a region is the xor of the checksums of its pages. */
  lemma {:induction false} SumByPages(pages: seq<Page>, n: WordBytes)
    ensures Whole(|Join(pages)|, n) && XorSum(Join(pages), n) == PagesSum(pages, n)
    decreases |pages|
  {
    if pages != [] {
      var k := |pages| - 1;
      SumByPages(pages[..k], n);
      SumAppend(Join(pages[..k]), pages[k], n);
    }
  }

  /** What a region holds after the non-zero pages were copied over it. */
  function Overlay(pages: seq<Page>, before: seq<Page>): (r: seq<Page>)
    requires |pages| == |before|
    ensures |r| == |pages| && forall k :: 0 <= k < |pages| ==> r[k] == if IsZero(pages[k]) then before[k] else pages[k]
  {
    seq(|pages|, k requires 0 <= k < |pages| => if IsZero(pages[k]) then before[k] else pages[k])
  }

  /** Skipping zero pages restores the image exactly when the target was zero there. */
  lemma OverlayExact(pages: seq<Page>, before: seq<Page>)
    requires |pages| == |before|
    ensures Overlay(pages, before) == pages
        <==> forall k :: 0 <= k < |pages| && IsZero(pages[k]) ==> IsZero(before[k])
  {
    var r := Overlay(pages, before);
    if r == pages {
      forall k | 0 <= k < |pages| && IsZero(pages[k])
        ensures IsZero(before[k])
      {
        assert r[k] == pages[k];
      }
    }
    if forall k :: 0 <= k < |pages| && IsZero(pages[k]) ==> IsZero(before[k]) {
      assert forall k :: 0 <= k < |pages| ==> r[k] == pages[k];
    }
  }
}
