/**
 Machine words as bounded integers, powers of two, and the division facts that
 every other module rests on.  Shifts are multiplications and divisions by a
 power of two; `&` with a mask of low ones is a remainder; `|` is written out
 bit by bit.
 */
module Words {

  const TWO32: int := 0x1_0000_0000
  const TWO48: int := 0x1_0000_0000_0000
  const TWO63: int := 0x8000_0000_0000_0000
  const TWO64: int := 0x1_0000_0000_0000_0000

  /** An unsigned 64-bit machine word. */
  type Word = x: int | 0 <= x < TWO64

  type Byte = x: int | 0 <= x < 256

  /** An unsigned 32-bit half word. */
  type Half = x: int | 0 <= x < TWO32

  function Pow2(k: nat): (r: int)
    ensures r >= 1
  {
    if k == 0 then 1 else 2 * Pow2(k - 1)
  }

  function Abs(x: int): nat { if x < 0 then -x else x }

  /** Right shift by k bits. */
  function Shr(x: nat, k: nat): (r: nat)
    decreases k
  {
    if k == 0 then x else Shr(x / 2, k - 1)
  }

  /** The low k bits. */
  function Low(x: nat, k: nat): (r: nat)
    decreases k
  {
    if k == 0 then 0 else x % 2 + 2 * Low(x / 2, k - 1)
  }

  /** Bitwise or. */
  function BitOr(a: nat, b: nat): (r: nat)
    decreases a + b
  {
    if a == 0 then b
    else if b == 0 then a
    else 2 * BitOr(a / 2, b / 2) + (if a % 2 == 1 || b % 2 == 1 then 1 else 0)
  }

  /** Bitwise exclusive or. */
  function BitXor(a: nat, b: nat): (r: nat)
    decreases a + b
  {
    if a == 0 then b
    else if b == 0 then a
    else 2 * BitXor(a / 2, b / 2) + (a + b) % 2
  }

  lemma XorHalves(a: nat, b: nat)
    ensures BitXor(a, b) / 2 == BitXor(a / 2, b / 2) && BitXor(a, b) % 2 == (a + b) % 2
  {
  }

  lemma XorNothing(a: nat)
    ensures BitXor(0, a) == a && BitXor(a, 0) == a
  {
  }

  lemma {:induction false} XorAssoc(a: nat, b: nat, c: nat)
    ensures BitXor(BitXor(a, b), c) == BitXor(a, BitXor(b, c))
    decreases a + b + c
  {
    hide BitXor;
    if a == 0 || b == 0 || c == 0 {
      XorNothing(a);
      XorNothing(b);
      XorNothing(c);
      XorNothing(BitXor(a, b));
      XorNothing(BitXor(b, c));
    } else {
      XorAssoc(a / 2, b / 2, c / 2);
      var ab, bc := BitXor(a, b), BitXor(b, c);
      XorHalves(a, b);
      XorHalves(b, c);
      XorHalves(ab, c);
      XorHalves(a, bc);
      ParityAssoc(a, b, c, ab, bc);
      SameHalves(BitXor(ab, c), BitXor(a, bc));
    }
  }

  lemma SameHalves(x: int, y: int)
    requires x / 2 == y / 2 && x % 2 == y % 2
    ensures x == y
  {
  }

  lemma ParityAssoc(a: int, b: int, c: int, ab: int, bc: int)
    requires ab % 2 == (a + b) % 2 && bc % 2 == (b + c) % 2
    ensures (ab + c) % 2 == (a + bc) % 2
  {
  }

  /** The bits of an exclusive or. */
  lemma {:induction false} XorBit(a: nat, b: nat, j: nat)
    ensures Shr(BitXor(a, b), j) % 2 == (Shr(a, j) + Shr(b, j)) % 2
    decreases j
  {
    hide BitXor;
    XorHalves(a, b);
    if j > 0 { XorBit(a / 2, b / 2, j - 1); }
  }

  lemma {:induction false} XorBound(a: nat, b: nat, k: nat)
    requires a < Pow2(k) && b < Pow2(k)
    ensures BitXor(a, b) < Pow2(k)
    decreases k
  {
    if a > 0 && b > 0 { XorBound(a / 2, b / 2, k - 1); }
  }

  /** The bits of an or. */
  lemma {:induction false} OrBit(a: nat, b: nat, j: nat)
    ensures Shr(BitOr(a, b), j) % 2 == 1 <==> Shr(a, j) % 2 == 1 || Shr(b, j) % 2 == 1
    decreases j
  {
    ZeroShift(j);
    if a > 0 && b > 0 && j > 0 { OrBit(a / 2, b / 2, j - 1); }
  }

  lemma {:induction false} PowerBit(k: nat, j: nat)
    ensures Shr(Pow2(k), j) % 2 == 1 <==> j == k
    decreases j
  {
    if j == 0 {
    } else if k == 0 {
      ZeroShift(j - 1);
    } else {
      PowerBit(k - 1, j - 1);
    }
  }

  lemma {:induction false} OrBound(a: nat, b: nat, k: nat)
    requires a < Pow2(k) && b < Pow2(k)
    ensures BitOr(a, b) < Pow2(k)
    decreases k
  {
    if a > 0 && b > 0 { OrBound(a / 2, b / 2, k - 1); }
  }

  lemma {:induction false} Pow2Add(a: nat, b: nat)
    ensures Pow2(a + b) == Pow2(a) * Pow2(b)
  {
    if b > 0 {
      Pow2Add(a, b - 1);
      MulAssoc(2, Pow2(a), Pow2(b - 1));
    }
  }

  lemma MulAssoc(x: int, y: int, z: int)
    ensures x * (y * z) == y * (x * z)
    ensures x * (y * z) == (x * y) * z
  {
  }

  lemma {:induction false} Pow2Mono(a: nat, b: nat)
    requires a <= b
    ensures Pow2(a) <= Pow2(b)
    decreases b
  {
    if a < b { Pow2Mono(a, b - 1); }
  }

  lemma Pow2Values()
    ensures Pow2(12) == 0x1000 && Pow2(13) == 0x2000
    ensures Pow2(32) == TWO32 && Pow2(35) == 0x8_0000_0000 && Pow2(40) == 0x100_0000_0000
    ensures Pow2(47) == 0x8000_0000_0000 && Pow2(48) == TWO48
    ensures Pow2(61) == 0x2000_0000_0000_0000 && Pow2(62) == 0x4000_0000_0000_0000
    ensures Pow2(63) == TWO63 && Pow2(64) == TWO64
  {
    assert Pow2(8) == 0x100;
    assert Pow2(16) == 0x1_0000;
    assert Pow2(24) == 0x100_0000;
    assert Pow2(32) == TWO32;
    assert Pow2(40) == 0x100_0000_0000;
    assert Pow2(48) == TWO48;
    assert Pow2(56) == 0x100_0000_0000_0000;
  }

  /** A product is bounded monotonically in one factor. */
  lemma MulMono(x: int, y: int, m: int)
    requires x <= y && 0 <= m
    ensures x * m <= y * m
    ensures m * x <= m * y
  {
  }

  /** The quotient is determined by any remainder in range. */
  lemma DivUnique(x: int, d: int, q: int, r: int)
    requires d > 0 && x == q * d + r && 0 <= r < d
    ensures x / d == q && x % d == r
  {
    var q' := x / d;
    var r' := x % d;
    assert x == q' * d + r';
    assert (q - q') * d == r' - r;
    if q - q' >= 1 {
      MulMono(1, q - q', d);
    } else if q - q' <= -1 {
      MulMono(q - q', -1, d);
    }
  }

  lemma DivAddMul(x: int, d: int, k: int)
    requires d > 0
    ensures (x + k * d) / d == x / d + k
    ensures (x + k * d) % d == x % d
  {
    assert x + k * d == (x / d + k) * d + x % d by {
      assert (x / d + k) * d == (x / d) * d + k * d;
    }
    DivUnique(x + k * d, d, x / d + k, x % d);
  }

  lemma DivMono(x: int, y: int, d: int)
    requires x <= y && d > 0
    ensures x / d <= y / d
  {
    if x / d >= y / d + 1 {
      MulMono(y / d + 1, x / d, d);
    }
  }

  /** Two successive right shifts are one. */
  lemma DivDiv(x: int, c: int, d: int)
    requires c > 0 && d > 0
    ensures c * d > 0
    ensures (x / c) / d == x / (c * d)
  {
    var q, r := (x / c) / d, (x / c) % d;
    var r0 := x % c;
    assert c * d > 0 by { MulMono(1, c, d); }
    assert x == (q * d + r) * c + r0;
    assert (q * d + r) * c == q * (c * d) + r * c by {
      assert (q * d + r) * c == (q * d) * c + r * c;
      MulAssoc(q, d, c);
      assert d * c == c * d;
    }
    assert 0 <= r * c + r0 < c * d by {
      MulMono(0, r, c);
      MulMono(r, d - 1, c);
      assert (d - 1) * c == c * d - c;
    }
    DivUnique(x, c * d, q, r * c + r0);
  }

  lemma {:induction false} ShrDiv(x: nat, k: nat)
    ensures Shr(x, k) == x / Pow2(k)
    decreases k
  {
    if k > 0 {
      ShrDiv(x / 2, k - 1);
      DivDiv(x, 2, Pow2(k - 1));
    }
  }

  /** A right shift can be taken in two steps. */
  lemma {:induction false} ShrSplit(x: nat, a: nat, c: nat)
    requires a <= c
    ensures Shr(x, c) == Shr(Shr(x, a), c - a)
    decreases a
  {
    if a > 0 { ShrSplit(x / 2, a - 1, c - 1); }
  }

  lemma ShrAgree(a: nat, b: nat, p: nat, k: nat)
    requires p <= k && Shr(a, p) == Shr(b, p)
    ensures Shr(a, k) == Shr(b, k)
  {
    ShrSplit(a, p, k);
    ShrSplit(b, p, k);
  }

  /** A number is its high part and its low part. */
  lemma {:induction false} ShrLow(x: nat, k: nat)
    ensures x == Shr(x, k) * Pow2(k) + Low(x, k)
    ensures Low(x, k) < Pow2(k)
    decreases k
  {
    if k > 0 {
      ShrLow(x / 2, k - 1);
      MulAssoc(2, Shr(x / 2, k - 1), Pow2(k - 1));
    }
  }

  lemma {:induction false} LowLe(x: nat, k: nat)
    ensures Low(x, k) <= x
    decreases k
  {
    if k > 0 { LowLe(x / 2, k - 1); }
  }

  /** The next bit up. */
  lemma {:induction false} LowNext(x: nat, k: nat)
    ensures Low(x, k + 1) == Low(x, k) + Shr(x, k) % 2 * Pow2(k)
    decreases k
  {
    if k > 0 {
      LowNext(x / 2, k - 1);
      MulAssoc(2, Shr(x, k) % 2, Pow2(k - 1));
    }
  }

  /** Setting a clear bit of the low part does not carry out of it. */
  lemma {:induction false} ClearBit(x: nat, j: nat, k: nat)
    requires j < k && Shr(x, j) % 2 == 0
    ensures Low(x, k) + Pow2(j) < Pow2(k)
    ensures Shr(Low(x, k), j) % 2 == 0
    decreases k
  {
    hide Low, Pow2, Shr;
    Halves(x, k);
    Halves(Low(x, k), k);
    if j == 0 {
      ShrLow(x / 2, k - 1);
      PowZero();
      NoShift(x);
      NoShift(Low(x, k));
    } else {
      Halves(x, j);
      ClearBit(x / 2, j - 1, k - 1);
      HalfOfLow(x, k);
      Halves(Low(x, k), j);
    }
  }

  lemma PowZero()
    ensures Pow2(0) == 1
  {
  }

  lemma NoShift(x: nat)
    ensures Shr(x, 0) == x && Low(x, 0) == 0
  {
  }

  lemma Halves(x: nat, k: nat)
    requires k > 0
    ensures Low(x, k) == x % 2 + 2 * Low(x / 2, k - 1) && Shr(x, k) == Shr(x / 2, k - 1) && Pow2(k) == 2 * Pow2(k - 1)
  {
  }

  lemma HalfOfLow(x: nat, k: nat)
    requires k > 0
    ensures Low(x, k) / 2 == Low(x / 2, k - 1)
  {
  }

  /** Bits k..k+m-1 are not affected by dropping the bits from n on. */
  lemma {:induction false} MiddleBits(x: nat, k: nat, m: nat, n: nat)
    requires k + m <= n
    ensures Low(Shr(x, k), m) == Low(Shr(Low(x, n), k), m)
    decreases n
  {
    if k > 0 {
      MiddleBits(x / 2, k - 1, m, n - 1);
    } else if m > 0 {
      MiddleBits(x / 2, 0, m - 1, n - 1);
    }
  }

  lemma {:induction false} ZeroShift(k: nat)
    ensures Shr(0, k) == 0
  {
    if k > 0 { ZeroShift(k - 1); }
  }

  lemma {:induction false} ZeroBit(x: nat, j: nat, k: nat)
    requires j < k && Low(x, k) == 0
    ensures Shr(x, j) % 2 == 0
    decreases k
  {
    if j > 0 { ZeroBit(x / 2, j - 1, k - 1); }
  }

  lemma LowMod(x: nat, k: nat)
    ensures Low(x, k) == x % Pow2(k)
    ensures Shr(x, k) == x / Pow2(k)
  {
    ShrLow(x, k);
    DivUnique(x, Pow2(k), Shr(x, k), Low(x, k));
  }

  /** Or-ing a value whose low k bits are clear with a value of k bits adds them. */
  lemma {:induction false} OrDisjoint(a: nat, b: nat, k: nat)
    requires a % Pow2(k) == 0 && b < Pow2(k)
    ensures BitOr(a, b) == a + b
    decreases k
  {
    if a == 0 || b == 0 {
    } else {
      var h := Pow2(k - 1);
      var m := a / Pow2(k);
      assert a == m * Pow2(k);
      assert m * Pow2(k) == 2 * (m * h) by { MulAssoc(m, 2, h); }
      assert a / 2 == m * h;
      assert (a / 2) % h == 0 by { DivAddMul(0, h, m); }
      OrDisjoint(a / 2, b / 2, k - 1);
    }
  }
}
