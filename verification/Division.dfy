/**
 Estimate-and-correct long division: the 128-by-64 and 128-by-128 dividers and
 their signed wrappers.
 */
module Division {
  import opened Words
  import opened Wide

  // ---- udiv_qrnnd ----------------------------------------------------------------------

  /** The digit estimate from the top half of the divisor is at most two too large. */
  lemma DigitEstimate(n1: Word, x: int, d: Word, d1: int, d0: int, q: int, r: int)
    requires TWO63 <= d && n1 < d && d == d1 * H + d0 && 0 <= d0 < H
    requires n1 == q * d1 + r && 0 <= r < d1
    ensures 0 <= q <= H + 1 && 0 <= q * d0 < W
    ensures n1 * H + x - q * d == r * H + x - q * d0
    ensures 0 <= r * H <= d - d0 - H
  {
    if q >= H + 2 { MulMono(H + 2, q, d1); }
    if q < 0 { MulMono(q, -1, d1); }
    MulMono(q, H + 1, d0);
    MulMono(0, q, d0);
    assert (H + 1) * d0 <= W - 1;
    assert q * d == q * d1 * H + q * d0 by { MulAssoc(q, d1, H); }
  }

  /** The correction of an estimated digit, with the carry of each addition read off as r < d. */
  method CorrectDigit(q: int, r1: Word, m: Word, d: Word) returns (q': int, r: Word)
    requires TWO63 <= d && r1 < d
    ensures r < d
    ensures || (q' == q && r == r1 - m)
            || (q' == q - 1 && r == r1 - m + d)
            || (q' == q - 2 && r == r1 - m + 2 * d)
  {
    q' := q;
    var s := r1;
    if s < m {
      q', s := q' - 1, (s + d) % W;
      if s >= d {
        if s < m {
          q', s := q' - 1, (s + d) % W;
        }
      }
    }
    r := (s - m) % W;
  }

  /** One 32-bit digit: divide n1:x by d, as each half of udiv_qrnnd does. */
  method QuotientDigit(n1: Word, x: Half, d: Word) returns (q: Half, r: Word)
    requires TWO63 <= d && n1 < d
    ensures n1 * H + x == q * d + r && r < d
  {
    var d0, d1 := d % H, d / H;
    var q1, r1 := n1 / d1, n1 % d1;
    DigitEstimate(n1, x, d, d1, d0, q1, r1);
    var q2;
    q2, r := CorrectDigit(q1, r1 * H + x, q1 * d0, d);
    assert (q1 - 1) * d == q1 * d - d && (q1 - 2) * d == q1 * d - 2 * d;
    DigitRange(n1, x, d, q2, r);
    q := q2;
  }

  lemma DigitRange(n1: Word, x: Half, d: Word, q: int, r: int)
    requires n1 < d && n1 * H + x == q * d + r && 0 <= r < d
    ensures 0 <= q < H
  {
    if q >= H { MulMono(H, q, d); }
    if q < 0 { MulMono(q, -1, d); }
  }

  /** udiv_qrnnd: exact division of n1:n0 by a normalised divisor. */
  method UdivQrnnd(n1: Word, n0: Word, d: Word) returns (q: Word, r: Word)
    requires TWO63 <= d && n1 < d
    ensures Val2(n1, n0) == q * d + r && r < d
  {
    var q1: Half, q0: Half, r1: Word;
    q1, r1 := QuotientDigit(n1, n0 / H, d);
    q0, r := QuotientDigit(r1, n0 % H, d);
    q := q1 * H + q0;
    assert q * d == q1 * d * H + q0 * d by { MulAssoc(q1, H, d); }
  }

  // ---- divu128 -------------------------------------------------------------------------

  /** Dividing scaled operands gives the quotient, and the remainder scaled. */
  lemma Unscale(n: int, q: int, d: int, p: int, r: int)
    requires p >= 1 && n * p == q * (d * p) + r && 0 <= r < d * p
    ensures n == q * d + r / p && 0 <= r / p < d
  {
    var k := n - q * d;
    assert r == k * p by { ScaledDifference(n, q, d, p); }
    DivUnique(r, p, k, 0);
    assert k < d by { if k >= d { MulMono(d, k, p); } }
    assert k >= 0 by { if k < 0 { MulMono(k, -1, p); } }
  }

  lemma ScaledDifference(n: int, q: int, d: int, p: int)
    ensures (n - q * d) * p == n * p - q * (d * p)
  {
    var qd := q * d;
    assert (n - qd) * p == n * p - qd * p;
    MulAssoc(q, d, p);
  }

  /** Two chained 128-by-64 divisions make a 192-by-64 one. */
  lemma ChainDivisions(n2: int, n1: int, n0: int, d: int, q1: int, r1: int, q0: int, r0: int)
    requires Val2(n2, n1) == q1 * d + r1 && Val2(r1, n0) == q0 * d + r0
    ensures n2 * W2 + Val2(n1, n0) == Val2(q1, q0) * d + r0
  {
    assert Val2(q1, q0) * d == q1 * d * W + q0 * d by { MulAssoc(q1, W, d); }
  }

  /** A dividend whose high word is below the divisor stays below it when both are scaled. */
  lemma ScaledHigh(n: int, hi: int, lo: int, d: int, p: int, top: int, nhi: int, nlo: int)
    requires p >= 1 && n == Val2(hi, lo) && 0 <= lo < W && hi < d && 0 <= d * p < W
    requires n * p == top * W2 + Val2(nhi, nlo) && 0 <= top && 0 <= nlo && 0 <= nhi
    ensures top == 0 && nhi < d * p
  {
    assert n <= d * W - 1;
    MulMono(n, d * W - 1, p);
    assert (d * W - 1) * p == d * p * W - p;
  }

  /** What normalisation by sh = clz64(divisor) hands to the divisions. */
  ghost predicate Scaled(hi: Word, lo: Word, divisor: Word, sh: nat, d: int, top: int, nhi: int, nlo: int) {
    && sh <= 63 && d == divisor * Pow2(sh) && TWO63 <= d < W
    && Val2(hi, lo) * Pow2(sh) == top * W2 + Val2(nhi, nlo)
    && 0 <= top < Pow2(sh) && 0 <= nhi < W && 0 <= nlo < W
  }

  lemma Normalise(hi: Word, lo: Word, divisor: Word)
    requires divisor != 0
    ensures var sh := Clz(divisor);
            Scaled(hi, lo, divisor, sh, Shl(divisor, sh), Shr(hi, 64 - sh), ShlDouble(hi, lo, sh), Shl(lo, sh))
  {
    hide Pow2, Shl, ShlDouble, Clz, Shr;
    NormalisedShl(divisor);
    ShlDoubleValue(hi, lo, Clz(divisor));
    ShlSplit(hi, Clz(divisor));
  }

  /** The two-division case of divu128, and its shortcut for a divisor that is already normalised. */
  method DivLarge(hi: Word, lo: Word, divisor: Word, sh: nat, d: Word, top: Word, nhi: Word, nlo: Word)
    returns (qlo: Word, qhi: Word, r: Word)
    requires Scaled(hi, lo, divisor, sh, d, top, nhi, nlo) && divisor <= hi
    ensures Val2(hi, lo) * Pow2(sh) == Val2(qhi, qlo) * d + r && r < d
  {
    hide Pow2;
    if sh != 0 {
      PowerBelow(sh);
      var r1: Word;
      qhi, r1 := UdivQrnnd(top, nhi, d);
      qlo, r := UdivQrnnd(r1, nlo, d);
      ChainDivisions(top, nhi, nlo, d, qhi, r1, qlo, r);
    } else {
      PowZero();
      qhi := 1;
      qlo, r := UdivQrnnd(hi - divisor, lo, divisor);
      assert Val2(qhi, qlo) * d == d * W + qlo * d;
    }
  }

  method DivWord(n: Word, d: Word) returns (q: Word, r: Word)
    requires d != 0
    ensures n == q * d + r && r < d
  {
    q, r := n / d, n % d;
  }

  /** divu128: the exact quotient and remainder for every non-zero divisor. */
  method DivU128(lo: Word, hi: Word, divisor: Word) returns (qlo: Word, qhi: Word, rem: Word)
    requires divisor != 0
    ensures Val2(hi, lo) == Val2(qhi, qlo) * divisor + rem && rem < divisor
  {
    hide Pow2, Shl, ShlDouble, Clz, Shr;
    if hi == 0 {
      qhi := 0;
      qlo, rem := DivWord(lo, divisor);
      return;
    }
    var sh := Clz(divisor);
    Normalise(hi, lo, divisor);
    var d: Word, nhi: Word, nlo: Word := Shl(divisor, sh), ShlDouble(hi, lo, sh), Shl(lo, sh);
    var r: Word;
    if hi < divisor {
      ScaledHigh(Val2(hi, lo), hi, lo, divisor, Pow2(sh), Shr(hi, 64 - sh), nhi, nlo);
      qhi := 0;
      qlo, r := UdivQrnnd(nhi, nlo, d);
    } else {
      qlo, qhi, r := DivLarge(hi, lo, divisor, sh, d, Shr(hi, 64 - sh), nhi, nlo);
    }
    Unscale(Val2(hi, lo), Val2(qhi, qlo), divisor, Pow2(sh), r);
    ShrDiv(r, sh);
    rem := Shr(r, sh);
  }

  lemma PowerBelow(n: nat)
    requires n <= 63
    ensures Pow2(n) <= TWO63
  {
    Pow2Mono(n, 63);
    Pow2Values();
  }

  // ---- divrem128 -----------------------------------------------------------------------

  /** u divided by the normalised top word h of v, then shifted back: never too small. */
  lemma EstimateNotLow(u: int, v: int, h: int, low: int, p: int, p': int, e: int, re: int, q: int, rest: int)
    requires p >= 1 && p * p' == W && h >= 1 && v * p == h * W + low && 0 <= low
    requires u == e * h + re && 0 <= re < h && 0 <= e
    requires e * p == q * W + rest && 0 <= rest < W && q >= 0
    ensures u < (q + 1) * v
  {
    // (e + 1) p <= (q + 1) W, because both sides are multiples of p and e p is below (q + 1) W
    assert (q + 1) * W == ((q + 1) * p') * p by { MulAssoc(q + 1, p', p); }
    if e + 1 > (q + 1) * p' {
      MulMono((q + 1) * p', e, p);
    }
    MulMono(e + 1, (q + 1) * p', p);
    assert (e + 1) * p <= (q + 1) * W;
    calc {
      u * p;
    <= { MulMono(u, (e + 1) * h - 1, p); }
      ((e + 1) * h - 1) * p;
    <  { assert ((e + 1) * h - 1) * p == (e + 1) * h * p - p; }
      (e + 1) * h * p;
    == { MulAssoc(e + 1, h, p); MulAssoc(h, e + 1, p); }
      h * ((e + 1) * p);
    <= { MulMono((e + 1) * p, (q + 1) * W, h); }
      h * ((q + 1) * W);
    == { MulAssoc(h, q + 1, W); }
      (q + 1) * (h * W);
    <= { MulMono(h * W, v * p, q + 1); }
      (q + 1) * (v * p);
    == { MulAssoc(q + 1, v, p); }
      (q + 1) * v * p;
    }
    if u >= (q + 1) * v { MulMono((q + 1) * v, u, p); }
  }

  lemma EstimateScaled(u: int, h: int, p: int, e: int, re: int, q: int, rest: int)
    requires p >= 1 && h >= 1 && u == e * h + re && 0 <= re && 0 <= e < 2 * W
    requires e * p == q * W + rest && 0 <= rest && q >= 0
    ensures q * (h * W) <= u * p && q < 2 * p
  {
    MulMono(e, 2 * W - 1, p);
    calc {
      q * (h * W);
    == { MulAssoc(h, q, W); }
      h * (q * W);
    <= { MulMono(q * W, e * p, h); }
      h * (e * p);
    == { MulAssoc(h, e, p); MulAssoc(e, h, p); }
      e * h * p;
    <= { MulMono(e * h, u, p); }
      u * p;
    }
  }

  /** ... and at most one too large. */
  lemma EstimateOneHigh(u: int, v: int, h: int, low: int, p: int, q: int)
    requires p >= 1 && TWO63 <= h && v * p == h * W + low && 0 <= low <= W - p
    requires q * (h * W) <= u * p && 1 <= q < 2 * p
    requires p <= TWO63 / 2 || p == TWO63
    ensures (q - 1) * v <= u
  {
    LowTerm(q, low, h, p);
    assert (q - 1) * v * p <= u * p by {
      MulAssoc(q - 1, v, p);
      assert (q - 1) * (h * W + low) == (q - 1) * (h * W) + (q - 1) * low;
      assert (q - 1) * (h * W) == q * (h * W) - h * W;
    }
    if (q - 1) * v > u { MulMono(u + 1, (q - 1) * v, p); }
  }

  lemma LowTerm(q: int, low: int, h: int, p: int)
    requires 1 <= q < 2 * p && TWO63 <= h && 0 <= low <= W - p
    requires p <= TWO63 / 2 || p == TWO63
    ensures (q - 1) * low <= h * W
  {
    if p == TWO63 {
      MulMono(low, TWO63, q - 1);
      MulMono(q - 1, W, TWO63);
      MulMono(TWO63, h, W);
    } else {
      MulMono(q - 1, h, low);
      MulMono(low, W, h);
    }
  }

  /** The product q v.hi fits in a word. */
  lemma HighProduct(u: int, vhi: int, h: int, p: int, q: int)
    requires p >= 1 && 0 <= u < W2 && 0 <= vhi && vhi * p <= h && 0 <= q && q * (h * W) <= u * p
    ensures 0 <= q * vhi < W
  {
    MulMono(0, q, vhi);
    if q * vhi >= W {
      MulMono(vhi * p, h, q);
      assert q * (vhi * p) == q * vhi * p by { MulAssoc(q, vhi, p); }
      MulMono(W, q * vhi, p);
      MulMono(u, W2 - 1, p);
      assert q * (h * W) == q * h * W by { MulAssoc(q, h, W); }
    }
  }

  /** The top word of the normalised divisor. */
  lemma TopWord(vhi: Word, vlo: Word)
    requires vhi > 0
    ensures var s := Clz(vhi);
            var h := ShlDouble(vhi, vlo, s);
            && Val2(vhi, vlo) * Pow2(s) == h * W + Shl(vlo, s)
            && TWO63 <= h < W && vhi * Pow2(s) <= h && Shl(vlo, s) <= W - Pow2(s)
  {
    hide Clz, Shl, ShlDouble, Pow2, Shr;
    var s := Clz(vhi);
    NormalisedShl(vhi);
    ShlDoubleValue(vhi, vlo, s);
    ShlSplit(vhi, s);
    ShlSplit(vlo, s);
  }

  lemma ShiftBack(eh: Word, elo: Word, s: nat)
    requires s <= 63 && eh <= 1
    ensures Val2(eh, elo) * Pow2(s) == ShlDouble(eh, elo, s) * W + Shl(elo, s) && ShlDouble(eh, elo, s) < W
  {
    hide Shl, ShlDouble, Pow2, Shr;
    ShlDoubleValue(eh, elo, s);
    assert Shr(eh, 64 - s) == 0 by { SmallShift(eh, 64 - s); }
  }

  lemma SmallShift(x: Word, k: nat)
    requires x <= 1 && k >= 1
    ensures Shr(x, k) == 0
  {
    ZeroShift(k - 1);
  }

  lemma ShiftSizes(s: nat)
    requires s <= 63
    ensures Pow2(s) <= TWO63 / 2 || Pow2(s) == TWO63
  {
    hide Pow2;
    Pow2Values();
    if s < 63 { Pow2Mono(s, 62); }
  }

  /** A dividend whose high word is below the divisor has a one-word quotient. */
  lemma QuotientWord(hi: Word, lo: Word, d: Word, qhi: Word, qlo: Word, r: Word)
    requires hi < d && Val2(hi, lo) == Val2(qhi, qlo) * d + r
    ensures qhi == 0
  {
    if qhi >= 1 { MulMono(W, Val2(qhi, qlo), d); }
  }

  /** u divided by the top word: at most one bit more than a word. */
  method DivideByTop(uhi: Word, ulo: Word, h: Word) returns (eh: Word, elo: Word, ghost re: int)
    requires TWO63 <= h
    ensures eh <= 1 && Val2(uhi, ulo) == Val2(eh, elo) * h + re && 0 <= re < h
  {
    var qhi, rem;
    if h > uhi {
      elo, qhi, rem := DivU128(ulo, uhi, h);
      QuotientWord(uhi, ulo, h, qhi, elo, rem);
      eh, re := 0, rem;
    } else {
      elo, qhi, rem := DivU128(ulo, uhi - h, h);
      QuotientWord(uhi - h, ulo, h, qhi, elo, rem);
      eh, re := 1, rem;
      assert Val2(1, elo) * h == h * W + elo * h;
    }
  }

  /** The estimate: the quotient or one more. */
  ghost predicate NearQuotient(u: int, vhi: int, v: int, q: int) {
    u < (q + 1) * v && (q >= 1 ==> (q - 1) * v <= u) && 0 <= q * vhi < W
  }

  lemma EstimateNear(uhi: Word, ulo: Word, vhi: Word, vlo: Word, eh: Word, elo: Word, re: int)
    requires vhi > 0
    requires var h := ShlDouble(vhi, vlo, Clz(vhi));
             eh <= 1 && Val2(uhi, ulo) == Val2(eh, elo) * h + re && 0 <= re < h
    ensures NearQuotient(Val2(uhi, ulo), vhi, Val2(vhi, vlo), ShlDouble(eh, elo, Clz(vhi)))
  {
    hide Clz, Shl, ShlDouble, Pow2, Shr;
    var s := Clz(vhi);
    TopWord(vhi, vlo);
    ShiftBack(eh, elo, s);
    ComplementPowers(s);
    ShiftSizes(s);
    var h, low, rest, q := ShlDouble(vhi, vlo, s), Shl(vlo, s), Shl(elo, s), ShlDouble(eh, elo, s);
    var e, u, v, p := Val2(eh, elo), Val2(uhi, ulo), Val2(vhi, vlo), Pow2(s);
    EstimateFromParts(u, vhi, v, h, low, p, Pow2(64 - s), e, re, q, rest);
  }

  lemma EstimateFromParts(u: int, vhi: int, v: int, h: int, low: int, p: int, p': int, e: int, re: int, q: int, rest: int)
    requires p >= 1 && p * p' == W && TWO63 <= h && v * p == h * W + low && 0 <= low <= W - p
    requires 0 <= u < W2 && u == e * h + re && 0 <= re < h && 0 <= e < 2 * W
    requires e * p == q * W + rest && 0 <= rest < W && q >= 0
    requires p <= TWO63 / 2 || p == TWO63
    requires 0 <= vhi && vhi * p <= h
    ensures NearQuotient(u, vhi, v, q)
  {
    EstimateNotLow(u, v, h, low, p, p', e, re, q, rest);
    EstimateScaled(u, h, p, e, re, q, rest);
    if q >= 1 {
      EstimateOneHigh(u, v, h, low, p, q);
    }
    HighProduct(u, vhi, h, p, q);
  }

  /** The overflow and size test on a product (tmp + m1):lo is exact. */
  lemma ProductTest(tmp: Word, m1: Word, lo: Word, uhi: Word, ulo: Word)
    ensures var hi := (m1 + tmp) % W;
            && (hi < tmp || hi > uhi || (hi == uhi && lo > ulo) <==> (tmp + m1) * W + lo > Val2(uhi, ulo))
            && ((tmp + m1) * W + lo <= Val2(uhi, ulo) ==> Val2(hi, lo) == (tmp + m1) * W + lo)
  {
  }

  /** quotient * divisor, as divrem128 forms it. */
  method Product(q: Word, vhi: Word, vlo: Word, uhi: Word, ulo: Word) returns (lo: Word, hi: Word, big: bool)
    requires 0 <= q * vhi < W
    ensures big <==> q * Val2(vhi, vlo) > Val2(uhi, ulo)
    ensures !big ==> Val2(hi, lo) == q * Val2(vhi, vlo)
  {
    var tmp: Word, m1: Word := q * vhi, 0;
    lo, m1 := Mul64(q, vlo);
    ProductParts(q, vhi, vlo);
    ProductTest(tmp, m1, lo, uhi, ulo);
    hi := (m1 + tmp) % W;
    big := hi < tmp || hi > uhi || (hi == uhi && lo > ulo);
  }

  lemma ProductParts(q: int, vhi: int, vlo: int)
    ensures q * Val2(vhi, vlo) == q * vhi * W + q * vlo
  {
    MulAssoc(q, vhi, W);
  }

  lemma SubtractWords(uhi: Word, ulo: Word, hi: Word, lo: Word)
    requires Val2(hi, lo) <= Val2(uhi, ulo)
    ensures Val2((uhi - (hi + (if ulo < lo then 1 else 0))) % W, (ulo - lo) % W) == Val2(uhi, ulo) - Val2(hi, lo)
  {
  }

  /** The final quotient, product and remainder of a near quotient. */
  lemma OneLess(u: int, vhi: int, v: int, q: int)
    requires NearQuotient(u, vhi, v, q) && 0 <= u && q >= 0 && 0 <= vhi
    ensures q * v <= u ==> 0 <= u - q * v < v
    ensures q * v > u ==> q >= 1 && 0 <= u - (q - 1) * v < v && 0 <= (q - 1) * vhi < W
  {
    assert (q + 1) * v == q * v + v && (q - 1) * v == q * v - v && (q - 1) * vhi == q * vhi - vhi;
    if q >= 1 { MulMono(0, q - 1, vhi); }
  }

  /** divrem128: u = q v + r with 0 <= r < v, for every u and every v other than 0. */
  method DivRem128(uhi: Word, ulo: Word, vhi: Word, vlo: Word) returns (qhi: Word, qlo: Word, rhi: Word, rlo: Word)
    requires Val2(vhi, vlo) != 0
    ensures Val2(uhi, ulo) == Val2(qhi, qlo) * Val2(vhi, vlo) + Val2(rhi, rlo)
    ensures Val2(rhi, rlo) < Val2(vhi, vlo)
  {
    hide Clz, ShlDouble, NearQuotient;
    if vhi == 0 {
      qlo, qhi, rlo := DivU128(ulo, uhi, vlo);
      rhi := 0;
      return;
    }
    var s := Clz(vhi);
    TopWord(vhi, vlo);
    var eh, elo, re := DivideByTop(uhi, ulo, ShlDouble(vhi, vlo, s));
    EstimateNear(uhi, ulo, vhi, vlo, eh, elo, re);
    ShiftBack(eh, elo, s);
    qhi, qlo := 0, ShlDouble(eh, elo, s);
    OneLess(Val2(uhi, ulo), vhi, Val2(vhi, vlo), qlo);
    NearFits(Val2(uhi, ulo), vhi, Val2(vhi, vlo), qlo);
    var lo, hi, big := Product(qlo, vhi, vlo, uhi, ulo);
    if big {
      qlo := qlo - 1;
      lo, hi, big := Product(qlo, vhi, vlo, uhi, ulo);
    }
    SubtractWords(uhi, ulo, hi, lo);
    rhi, rlo := (uhi - (hi + (if ulo < lo then 1 else 0))) % W, (ulo - lo) % W;
  }

  lemma NearFits(u: int, vhi: int, v: int, q: int)
    requires NearQuotient(u, vhi, v, q)
    ensures 0 <= q * vhi < W
  {
  }

  // ---- Signed division -----------------------------------------------------------------

  function Signed1(x: Word): int { if x >= TWO63 then x - W else x }
  function Signed2(hi: Word, lo: Word): int { if hi >= TWO63 then Val2(hi, lo) - W2 else Val2(hi, lo) }

  /** Division that truncates toward zero, and its remainder, which has the sign of the dividend. */
  function TruncDiv(a: int, b: int): int
    requires b != 0
  {
    if (a < 0) == (b < 0) then Abs(a) / Abs(b) else -(Abs(a) / Abs(b))
  }

  function TruncRem(a: int, b: int): int
    requires b != 0
  {
    if a < 0 then -(Abs(a) % Abs(b)) else Abs(a) % Abs(b)
  }

  lemma TruncLaw(a: int, b: int)
    requires b != 0
    ensures a == TruncDiv(a, b) * b + TruncRem(a, b) && Abs(TruncRem(a, b)) < Abs(b)
    ensures TruncRem(a, b) != 0 ==> (TruncRem(a, b) < 0 <==> a < 0)
  {
    var q, r := Abs(a) / Abs(b), Abs(a) % Abs(b);
    assert Abs(a) == q * Abs(b) + r;
    assert (-q) * b == -(q * b) && q * (-b) == -(q * b);
  }

  /** int128_neg, also written out in divs128. */
  method Neg128(hi: Word, lo: Word) returns (nhi: Word, nlo: Word)
    ensures Val2(nhi, nlo) == if Val2(hi, lo) == 0 then 0 else W2 - Val2(hi, lo)
  {
    nlo := (0 - lo) % W;
    nhi := (W - 1 - hi + (if nlo == 0 then 1 else 0)) % W;
  }

  /** Quotient and remainder of magnitudes determine the truncated ones. */
  lemma Magnitudes(a: int, b: int, q: int, r: int)
    requires b != 0 && Abs(a) == q * Abs(b) + r && 0 <= r < Abs(b)
    ensures TruncDiv(a, b) == if (a < 0) == (b < 0) then q else -q
    ensures TruncRem(a, b) == if a < 0 then -r else r
    ensures 0 <= q <= Abs(a)
  {
    DivUnique(Abs(a), Abs(b), q, r);
    if q < 0 { MulMono(q, -1, Abs(b)); }
    MulMono(1, Abs(b), q);
  }

  method Magnitude(hi: Word, lo: Word) returns (neg: bool, mhi: Word, mlo: Word)
    ensures neg == (Signed2(hi, lo) < 0) && Val2(mhi, mlo) == Abs(Signed2(hi, lo))
  {
    neg, mhi, mlo := hi >= TWO63, hi, lo;
    if neg {
      mhi, mlo := Neg128(hi, lo);
    }
  }

  /** Negation of a double word when asked for, read modulo 2^128. */
  method ApplySign(neg: bool, hi: Word, lo: Word) returns (shi: Word, slo: Word)
    ensures Val2(shi, slo) == (if neg then -Val2(hi, lo) else Val2(hi, lo)) % W2
    ensures Val2(hi, lo) < TWO63 * W ==> Signed2(shi, slo) == if neg then -Val2(hi, lo) else Val2(hi, lo)
  {
    shi, slo := hi, lo;
    if neg {
      shi, slo := Neg128(hi, lo);
    }
  }

  /** int128_divs and int128_rems: truncation toward zero, modulo 2^128. */
  method DivRemSigned128(ahi: Word, alo: Word, bhi: Word, blo: Word)
    returns (qhi: Word, qlo: Word, rhi: Word, rlo: Word)
    requires Val2(bhi, blo) != 0
    ensures Val2(qhi, qlo) == TruncDiv(Signed2(ahi, alo), Signed2(bhi, blo)) % W2
    ensures Signed2(rhi, rlo) == TruncRem(Signed2(ahi, alo), Signed2(bhi, blo))
  {
    hide TruncDiv, TruncRem, Val2, Abs;
    ghost var a, b := Signed2(ahi, alo), Signed2(bhi, blo);
    SignedRange(ahi, alo);
    SignedRange(bhi, blo);
    var sgna, xhi, xlo := Magnitude(ahi, alo);
    var sgnb, yhi, ylo := Magnitude(bhi, blo);
    qhi, qlo, rhi, rlo := DivRem128(xhi, xlo, yhi, ylo);
    ValRange(rhi, rlo);
    Magnitudes(a, b, Val2(qhi, qlo), Val2(rhi, rlo));
    qhi, qlo := ApplySign(sgna != sgnb, qhi, qlo);
    rhi, rlo := ApplySign(sgna, rhi, rlo);
  }

  lemma SignedRange(hi: Word, lo: Word)
    ensures Abs(Signed2(hi, lo)) <= TWO63 * W && (Val2(hi, lo) != 0 ==> Signed2(hi, lo) != 0 && Abs(Signed2(hi, lo)) != 0)
  {
  }

  lemma ValRange(hi: Word, lo: Word)
    ensures 0 <= Val2(hi, lo) < W2
  {
  }

  /** divs128: signed 128-by-64 division; the quotient is given modulo 2^128, the remainder exactly. */
  method DivS128(lo: Word, hi: Word, divisor: Word) returns (qlo: Word, qhi: Word, rem: Word)
    requires divisor != 0
    ensures Val2(qhi, qlo) == TruncDiv(Signed2(hi, lo), Signed1(divisor)) % W2
    ensures Signed1(rem) == TruncRem(Signed2(hi, lo), Signed1(divisor))
  {
    hide TruncDiv, TruncRem, Val2, Signed2;
    ghost var n, d := Signed2(hi, lo), Signed1(divisor);
    var negN, uhi, ulo := Magnitude(hi, lo);
    var negD := divisor >= TWO63;
    var ud: Word := if negD then W - divisor else divisor;
    assert ud == Abs(d) && (negD <==> d < 0) && d != 0;
    qlo, qhi, rem := DivU128(ulo, uhi, ud);
    Magnitudes(n, d, Val2(qhi, qlo), rem);
    qhi, qlo := ApplySign(negN != negD, qhi, qlo);
    SignedRem(rem, d);
    if negN {
      rem := (0 - rem) % W;
    }
  }

  lemma SignedRem(rem: int, d: int)
    requires 0 <= rem < Abs(d) <= TWO63
    ensures Signed1(rem) == rem && Signed1((0 - rem) % W) == -rem
  {
  }

}
