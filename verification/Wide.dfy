/**
 Multi-word unsigned arithmetic: products, sums, differences and shifts of values
 kept as two or three 64-bit words, most significant word first.
 */
module Wide {
  import opened Words

  const W: int := TWO64
  const W2: int := 0x1_0000_0000_0000_0000_0000_0000_0000_0000
  const W3: int := 0x1_0000_0000_0000_0000_0000_0000_0000_0000_0000_0000_0000_0000
  const H: int := TWO32

  function Val2(hi: int, lo: int): int { hi * W + lo }
  function Val3(hi: int, mid: int, lo: int): int { hi * W2 + mid * W + lo }

  lemma MulHalves(a1: int, a0: int, b1: int, b0: int)
    ensures (a1 * H + a0) * (b1 * H + b0) == a1 * b1 * W + (a0 * b1 + a1 * b0) * H + a0 * b0
  {
  }

  lemma HalfProduct(a: Half, b: Half)
    ensures 0 <= a * b <= (H - 1) * (H - 1)
  {
    MulMono(a, H - 1, b);
    MulMono(b, H - 1, H - 1);
    MulMono(0, a, b);
  }

  /** mul64: 64x64 to 128 bits by four 32-bit products. */
  method Mul64(a: Word, b: Word) returns (lo: Word, hi: Word)
    ensures Val2(hi, lo) == a * b
  {
    var a0: Half, a1: Half := a % H, a / H;
    var b0: Half, b1: Half := b % H, b / H;
    HalfProduct(a0, b0);
    HalfProduct(a0, b1);
    HalfProduct(a1, b0);
    HalfProduct(a1, b1);
    var rl, rm, rn, rh := a0 * b0, a0 * b1, a1 * b0, a1 * b1;
    MulHalves(a1, a0, b1, b0);
    ProductRange(a, b);
    lo, hi := Carries(rl, rm, rn, rh, a * b);
  }

  lemma ProductRange(a: Word, b: Word)
    ensures a * b < W2
  {
    MulMono(a, W - 1, b);
    MulMono(b, W - 1, W - 1);
  }

  /** The four products added up column by column; the top half word does not overflow. */
  method Carries(rl: nat, rm: nat, rn: nat, rh: nat, ghost total: int) returns (lo: Word, hi: Word)
    requires total == rh * W + (rm + rn) * H + rl && total < W2
    ensures Val2(hi, lo) == total
  {
    var c := rl / H + rm % H + rn % H;
    var c' := c / H + rm / H + rn / H + rh % H;
    ColumnSum(rl / H, rl % H, rm / H, rm % H, rn / H, rn % H, rh / H, rh % H, c / H, c % H, c' / H, c' % H, total);
    lo := c % H * H + rl % H;
    hi := (rh / H + c' / H) % H * H + c' % H;
  }

  lemma ColumnSum(l1: int, l0: int, m1: int, m0: int, n1: int, n0: int, h1: int, h0: int, c1: int, c0: int, d1: int, d0: int, total: int)
    requires 0 <= l0 < H && 0 <= c0 < H && 0 <= d0 < H && 0 <= h1 && 0 <= d1
    requires l1 + m0 + n0 == c1 * H + c0 && c1 + m1 + n1 + h0 == d1 * H + d0
    requires total == (h1 * H + h0) * W + (m1 * H + m0 + (n1 * H + n0)) * H + (l1 * H + l0) && total < W2
    ensures Val2((h1 + d1) * H + d0, c0 * H + l0) == total && h1 + d1 < H
  {
  }

  /** uadd64_carry. */
  method AddCarry(a: Word, b: Word, c: int) returns (z: Word, c': int)
    requires 0 <= c <= 1
    ensures 0 <= c' <= 1 && z + c' * W == a + b + c
  {
    z, c' := (a + b + c) % W, (a + b + c) / W;
  }

  /** usub64_borrow. */
  method SubBorrow(a: Word, b: Word, c: int) returns (z: Word, c': int)
    requires 0 <= c <= 1
    ensures 0 <= c' <= 1 && z - c' * W == a - b - c
  {
    z, c' := (a - b - c) % W, if a < b + c then 1 else 0;
  }

  method Add128(a0: Word, a1: Word, b0: Word, b1: Word) returns (z0: Word, z1: Word)
    ensures var s := Val2(a0, a1) + Val2(b0, b1);
            Val2(z0, z1) == if s >= W2 then s - W2 else s
  {
    var c;
    z1, c := AddCarry(a1, b1, 0);
    z0, c := AddCarry(a0, b0, c);
  }

  method Sub128(a0: Word, a1: Word, b0: Word, b1: Word) returns (z0: Word, z1: Word)
    ensures var d := Val2(a0, a1) - Val2(b0, b1);
            Val2(z0, z1) == if d < 0 then d + W2 else d
  {
    var c;
    z1, c := SubBorrow(a1, b1, 0);
    z0, c := SubBorrow(a0, b0, c);
  }

  method Add192(a0: Word, a1: Word, a2: Word, b0: Word, b1: Word, b2: Word) returns (z0: Word, z1: Word, z2: Word)
    ensures var s := Val3(a0, a1, a2) + Val3(b0, b1, b2);
            Val3(z0, z1, z2) == if s >= W3 then s - W3 else s
  {
    var c;
    z2, c := AddCarry(a2, b2, 0);
    z1, c := AddCarry(a1, b1, c);
    z0, c := AddCarry(a0, b0, c);
  }

  method Sub192(a0: Word, a1: Word, a2: Word, b0: Word, b1: Word, b2: Word) returns (z0: Word, z1: Word, z2: Word)
    ensures var d := Val3(a0, a1, a2) - Val3(b0, b1, b2);
            Val3(z0, z1, z2) == if d < 0 then d + W3 else d
  {
    var c;
    z2, c := SubBorrow(a2, b2, 0);
    z1, c := SubBorrow(a1, b1, c);
    z0, c := SubBorrow(a0, b0, c);
  }

  /** mul128By64To192. */
  method Mul128By64(a0: Word, a1: Word, b: Word) returns (z0: Word, z1: Word, z2: Word)
    ensures Val3(z0, z1, z2) == Val2(a0, a1) * b
  {
    var m1: Word, y0: Word, y1: Word;
    z2, m1 := Mul64(a1, b);
    y1, y0 := Mul64(a0, b);
    z0, z1 := Add128(y0, y1, 0, m1);
    assert Val2(a0, a1) * b == a0 * b * W + a1 * b;
    assert a0 * b <= W2 - 2 * W + 1 by {
      MulMono(a0, W - 1, b);
      MulMono(b, W - 1, W - 1);
    }
  }

  // ---- Shifts ----------------------------------------------------------------------

  function Shl(x: Word, c: nat): Word { x * Pow2(c) % W }

  /** shl_double: shift l left, shifting in bits from r. */
  function ShlDouble(l: Word, r: Word, c: nat): (z: nat)
    requires c < 64
  {
    if c == 0 then l else BitOr(Shl(l, c), Shr(r, 64 - c))
  }

  /** shr_double: shift r right, shifting in bits from l. */
  function ShrDouble(l: Word, r: Word, c: nat): (z: nat)
    requires c < 64
  {
    if c == 0 then r else BitOr(Shl(l, 64 - c), Shr(r, c))
  }

  lemma ComplementPowers(c: nat)
    requires c <= 64
    ensures Pow2(c) * Pow2(64 - c) == W
  {
    Pow2Add(c, 64 - c);
    Pow2Values();
  }

  lemma ShiftParts(x: int, p: int, q: int, h: int, r: int)
    requires p >= 1 && p * q == W && x == h * q + r && 0 <= r < q && 0 <= x < W
    ensures x * p == h * W + r * p && 0 <= r * p <= W - p
    ensures h < p
  {
    MulAssoc(h, q, p);
    MulMono(r, q - 1, p);
    MulMono(0, r, p);
    if h >= p { MulMono(p, h, q); }
  }

  /** The bits a left shift pushes out are the bits a right shift keeps. */
  lemma ShlSplit(x: Word, c: nat)
    requires c <= 64
    ensures x * Pow2(c) == Shr(x, 64 - c) * W + Shl(x, c)
    ensures Shl(x, c) == Low(x, 64 - c) * Pow2(c)
    ensures Shl(x, c) <= W - Pow2(c) && Shr(x, 64 - c) < Pow2(c)
  {
    hide Pow2, Shr, Low;
    var p, q := Pow2(c), Pow2(64 - c);
    ComplementPowers(c);
    ShrLow(x, 64 - c);
    var h, r := Shr(x, 64 - c), Low(x, 64 - c);
    ShiftParts(x, p, q, h, r);
    DivUnique(x * p, W, h, r * p);
  }

  lemma ShlDoubleValue(l: Word, r: Word, c: nat)
    requires c < 64
    ensures ShlDouble(l, r, c) == Shl(l, c) + Shr(r, 64 - c) < W
    ensures Val2(l, r) * Pow2(c) == Shr(l, 64 - c) * W2 + Val2(ShlDouble(l, r, c), Shl(r, c))
  {
    hide Shl, Pow2, Shr, Low, BitOr;
    ShlSplit(l, c);
    ShlSplit(r, c);
    if c == 0 {
      ShiftByZero(l);
      ShiftByZero(r);
    } else {
      DivAddMul(0, Pow2(c), Low(l, 64 - c));
      OrDisjoint(Shl(l, c), Shr(r, 64 - c), c);
    }
    Distribute(l, r, Pow2(c));
  }

  /** shortShift128Left when nothing is shifted out. */
  method ShiftLeft128(a0: Word, a1: Word, c: nat) returns (z0: Word, z1: Word)
    requires c < 64 && Val2(a0, a1) * Pow2(c) < W2
    ensures Val2(z0, z1) == Val2(a0, a1) * Pow2(c)
  {
    hide Shl, Pow2, Shr, ShlDouble;
    ShlDoubleValue(a0, a1, c);
    z1, z0 := Shl(a1, c), ShlDouble(a0, a1, c);
  }

  /** shortShift192Left when nothing is shifted out. */
  method ShiftLeft192(a0: Word, a1: Word, a2: Word, c: nat) returns (z0: Word, z1: Word, z2: Word)
    requires c < 64 && Val3(a0, a1, a2) * Pow2(c) < W3
    ensures Val3(z0, z1, z2) == Val3(a0, a1, a2) * Pow2(c)
  {
    hide Shl, Pow2, Shr, ShlDouble;
    ShlDoubleValue(a0, a1, c);
    ShlDoubleValue(a1, a2, c);
    ShlSplit(a1, c);
    ThreeWords(a0, a1, a2, Pow2(c), Shr(a0, 64 - c), ShlDouble(a0, a1, c), Shl(a1, c), Shr(a1, 64 - c),
               ShlDouble(a1, a2, c), Shl(a2, c));
    z2, z1, z0 := Shl(a2, c), ShlDouble(a1, a2, c), ShlDouble(a0, a1, c);
  }

  /** Overlapping double-word shifts make a triple-word shift. */
  lemma ThreeWords(a0: int, a1: int, a2: int, p: int, t0: int, h0: int, l1: int, t1: int, h1: int, l2: int)
    requires Val2(a0, a1) * p == t0 * W2 + Val2(h0, l1) && Val2(a1, a2) * p == t1 * W2 + Val2(h1, l2)
    requires 0 <= t0 && 0 <= h0 && 0 <= h1 < W && 0 <= l1 < W && 0 <= l2 < W && 0 <= a2 < W && 0 <= a1 && p >= 1
    requires a1 * p == t1 * W + l1 && Val3(a0, a1, a2) * p < W3
    ensures t0 == 0 && Val3(a0, a1, a2) * p == Val3(h0, h1, l2)
  {
    assert Val3(a0, a1, a2) * p == Val2(a0, a1) * p * W + a2 * p;
    assert Val2(a1, a2) * p == a1 * p * W + a2 * p;
    MulMono(0, a2, p);
  }

  /** A right shift by pieces: quotient in two words, remainder in the low bits of r. */
  lemma ShrDoubleValue(l: Word, r: Word, c: nat)
    requires c < 64
    ensures ShrDouble(l, r, c) < W
    ensures Val2(l, r) == Val2(Shr(l, c), ShrDouble(l, r, c)) * Pow2(c) + Low(r, c) && Low(r, c) < Pow2(c)
  {
    hide Shl, Pow2, Shr, Low, BitOr;
    ShrLow(l, c);
    ShrLow(r, c);
    if c == 0 {
      PowZero();
      NoShift(l);
      NoShift(r);
    } else {
      ShlSplit(l, 64 - c);
      ComplementPowers(c);
      ShiftRange(r, c);
      DivAddMul(0, Pow2(64 - c), Low(l, c));
      OrDisjoint(Shl(l, 64 - c), Shr(r, c), 64 - c);
      RightParts(Shr(l, c), Low(l, c), Shr(r, c), Low(r, c), Pow2(c), Pow2(64 - c));
    }
  }

  lemma ShiftRange(r: Word, c: nat)
    requires c <= 64
    ensures Shr(r, c) < Pow2(64 - c)
  {
    hide Pow2, Shr, Low;
    ShlSplit(r, 64 - c);
  }

  lemma RightParts(lh: int, ll: int, rh: int, rl: int, p: int, q: int)
    requires p * q == W
    ensures Val2(lh * p + ll, rh * p + rl) == Val2(lh, ll * q + rh) * p + rl
  {
    assert ll * q * p == ll * W by { MulAssoc(ll, q, p); }
  }

  lemma Distribute(l: int, r: int, p: int)
    ensures Val2(l, r) * p == l * p * W + r * p
  {
  }

  lemma ShiftByZero(x: Word)
    ensures Shl(x, 0) == x && Shr(x, 64) == 0 && Pow2(0) == 1
  {
    hide Shr;
    Pow2Values();
    ShrDiv(x, 64);
  }

  // ---- Leading zeros -----------------------------------------------------------------

  /** clz64 of a non-zero word. */
  function Clz(x: Word): (n: nat)
    requires x > 0
    ensures n <= 63 && TWO63 <= x * Pow2(n) < W
    decreases W - x
  {
    if x >= TWO63 then 0
    else
      var n := Clz(2 * x);
      ClzStep(x, n);
      n + 1
  }

  lemma ClzStep(x: Word, n: nat)
    requires 0 < x < TWO63 && n <= 63 && TWO63 <= 2 * x * Pow2(n) < W
    ensures n < 63 && x * Pow2(n + 1) == 2 * x * Pow2(n)
  {
    MulAssoc(x, 2, Pow2(n));
    if n == 63 {
      Pow2Values();
    }
  }

  /** A normalising shift loses nothing. */
  lemma NormalisedShl(x: Word)
    requires x > 0
    ensures Shl(x, Clz(x)) == x * Pow2(Clz(x))
  {
  }
}
