/**
 Division of normalised significands: frac64_div and frac128_div.  The quotient is
 the exact floor with a sticky low bit.
 */
module FracDiv {
  import opened Words
  import opened Wide
  import opened ShrJam
  import Division
  import opened Estimate

  /** frac64_div: `ret` says that the exponent must drop by one. */
  method Frac64Div(a: Word, b: Word) returns (frac: Word, ret: bool)
    requires TWO63 <= a && TWO63 <= b
    ensures ret == (a < b)
    ensures frac == Jam(if ret then a * W else a * TWO63, b)
    ensures frac >= TWO63
  {
    hide Jam;
    ret := a < b;
    var n0, n1 := if ret then a else a / 2, if ret then 0 else a % 2 * TWO63;
    var q, r := Division.UdivQrnnd(n0, n1, b);
    JamFrom(Val2(n0, n1), b, q, r);
    if q < TWO63 { MulMono(q + 1, TWO63, b); }
    frac := OrFlag(q, r != 0);
  }

  // ---- One word of a 128-bit quotient ----------------------------------------------------

  /** The estimate from the top words alone: never low, at most four high. */
  lemma WordEstimate(a0: Word, a1: Word, a2: Word, b0: Word, b1: Word, q: Word)
    requires TWO63 <= b0 && Val2(a0, a1) < Val2(b0, b1)
    requires a0 >= b0 ==> q == W - 1
    requires a0 < b0 ==> AtMostTwoHigh(Val2(a0, a1), b0, q)
    ensures var r := Val3(a0, a1, a2) - Val2(b0, b1) * q;
            -4 * Val2(b0, b1) <= r < Val2(b0, b1)
  {
    var a, b := Val2(a0, a1), Val2(b0, b1);
    assert b * q == q * b0 * W + q * b1 by { MulAssoc(q, b0, W); }
    MulMono(0, q, b1);
    if a0 < b0 {
      assert (q + 1) * b0 == q * b0 + b0 && (q - 2) * b0 == q * b0 - 2 * b0;
      MulMono(q, W, b1);
    } else {
      assert q * b0 == (W - 1) * b0 && q * b1 == (W - 1) * b1;
    }
  }

  /** Estimate, multiply back, and lower the estimate while the 192-bit difference is negative. */
  method QuotientWord(a0: Word, a1: Word, b0: Word, b1: Word) returns (q: Word, r1: Word, r2: Word)
    requires TWO63 <= b0 && Val2(a0, a1) < Val2(b0, b1)
    ensures Val2(a0, a1) * W == q * Val2(b0, b1) + Val2(r1, r2) && Val2(r1, r2) < Val2(b0, b1)
  {
    ghost var a, b := Val2(a0, a1), Val2(b0, b1);
    q := EstimateDiv128To64(a0, a1, b0);
    WordEstimate(a0, a1, 0, b0, b1, q);
    var t0, t1, t2 := Mul128By64(b0, b1, q);
    var r0;
    r0, r1, r2 := Sub192(a0, a1, 0, t0, t1, t2);
    ghost var r := a * W - b * q;
    while r0 != 0
      invariant r == a * W - b * q && -4 * b <= r < b
      invariant Val3(r0, r1, r2) == if r < 0 then r + W3 else r
      decreases -r
    {
      NegativeHasQuotient(a, b, q);
      assert b * (q - 1) == b * q - b;
      q := q - 1;
      r := r + b;
      r0, r1, r2 := Add192(r0, r1, r2, 0, b0, b1);
    }
  }

  lemma NegativeHasQuotient(a: int, b: int, q: int)
    requires a >= 0 && b > 0 && q >= 0 && a * W - b * q < 0
    ensures q >= 1
  {
  }

  /** frac128_div on the words of two normalised significands. */
  method Frac128Div(a0: Word, a1: Word, b0: Word, b1: Word) returns (hi: Word, lo: Word, ret: bool)
    requires TWO63 <= a0 && TWO63 <= b0
    ensures ret == (Val2(a0, a1) < Val2(b0, b1))
    ensures Val2(hi, lo) == Jam((if ret then Val2(a0, a1) else Val2(a0, a1) / 2) * W2, Val2(b0, b1))
  {
    hide Jam, ShrDouble, Shr, OrFlag;
    ghost var a, b := Val2(a0, a1), Val2(b0, b1);
    ret := a0 < b0 || (a0 == b0 && a1 < b1);
    var x0, x1 := a0, a1;
    if !ret {
      HalfOf(a0, a1);
      x1 := ShrDouble(x0, x1, 1);
      x0 := x0 / 2;
    }
    ghost var x := Val2(x0, x1);
    var q0, r1, r2 := QuotientWord(x0, x1, b0, b1);
    var q1, r3, r4 := QuotientWord(r1, r2, b0, b1);
    TwoWords(x, b, q0, Val2(r1, r2), q1, Val2(r3, r4));
    JamWords(x * W2, b, q0, q1, r3, r4);
    hi, lo := q0, OrFlag(q1, r3 != 0 || r4 != 0);
  }

  lemma JamWords(n: int, b: int, q0: Word, q1: Word, r0: Word, r1: Word)
    requires b > 0 && n == Val2(q0, q1) * b + Val2(r0, r1) && Val2(r0, r1) < b
    ensures Jam(n, b) == Val2(q0, OrFlag(q1, r0 != 0 || r1 != 0))
  {
    hide Jam;
    JamFrom(n, b, Val2(q0, q1), Val2(r0, r1));
    assert Val2(q0, q1) == q1 + 2 * (q0 * TWO63);
  }

  lemma HalfOf(a0: Word, a1: Word)
    ensures ShrDouble(a0, a1, 1) < W && Val2(a0 / 2, ShrDouble(a0, a1, 1)) == Val2(a0, a1) / 2
  {
    ShrDoubleValue(a0, a1, 1);
    assert Shr(a0, 1) == a0 / 2 && Pow2(1) == 2;
  }

  lemma TwoWords(x: int, b: int, q0: int, r: int, q1: int, s: int)
    requires x * W == q0 * b + r && r * W == q1 * b + s
    ensures x * W2 == Val2(q0, q1) * b + s
  {
    assert Val2(q0, q1) * b == q0 * b * W + q1 * b by { MulAssoc(q0, W, b); }
  }

  lemma QuotientRange(n: int, b: int)
    requires b > 0 && (W2 / 2) * b <= n < W2 * b
    ensures W2 / 2 <= Jam(n, b) < W2
  {
    var q := n / b;
    assert n == q * b + n % b;
    if q < W2 / 2 { MulMono(q + 1, W2 / 2, b); }
    if q >= W2 { MulMono(W2, q, b); }
  }

  /** The dividend scaled so that the quotient has 128 bits. */
  function Scaled(a: int, b: int): int { if a < b then a * W2 else a * (W2 / 2) }

  /** With no bit lost to the initial halving, the result is the scaled quotient, jammed, and normalised. */
  lemma ExactUnlessOdd(a: int, b: int)
    requires W2 / 2 <= a < W2 && W2 / 2 <= b < W2
    requires a < b || a % 2 == 0
    ensures Jam((if a < b then a else a / 2) * W2, b) == Jam(Scaled(a, b), b)
    ensures W2 / 2 <= Jam(Scaled(a, b), b) < W2
  {
    hide Jam;
    assert (if a < b then a else a / 2) * W2 == Scaled(a, b);
    QuotientRange(Scaled(a, b), b);
  }

  /** Exactly when the lost bit of an odd dividend, not below the divisor, shows in the result: the exact division
      of a * 2^127 leaves a remainder below 2^127 with an even quotient, or one of two exact cases. */
  lemma LostBitShows(a: int, b: int)
    requires W2 / 2 <= b <= a < W2 && a % 2 == 1
    ensures var q, r, h := a * (W2 / 2) / b, a * (W2 / 2) % b, W2 / 2;
            Jam(a / 2 * W2, b) != Jam(Scaled(a, b), b)
            <==> if q % 2 == 0 then r <= h else r == 0 && b == h
  {
    hide Jam;
    var h := W2 / 2;
    var n := a * h;
    var q, r := n / b, n % b;
    assert a / 2 * W2 == n - h;
    assert n == q * b + r;
    JamFrom(n, b, q, r);
    if r >= h {
      JamFrom(n - h, b, q, r - h);
    } else {
      assert (q - 1) * b == q * b - b;
      JamFrom(n - h, b, q - 1, r - h + b);
    }
  }

  /** An odd dividend not below the divisor loses its low bit: one divided by one comes out below one. */
  lemma OddDividendLosesABit()
    ensures var a := W2 / 2 + 1;
            && Jam(a / 2 * W2, a) == W2 / 2 - 1
            && Jam(Scaled(a, a), a) == W2 / 2
  {
    var a := W2 / 2 + 1;
    JamFrom(a / 2 * W2, a, W2 / 2 - 1, a - W2 / 2);
    JamFrom(a * (W2 / 2), a, W2 / 2, 0);
  }
}
