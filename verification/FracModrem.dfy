/**
 Remainder of normalised significands: frac64_modrem and frac128_modrem.  The dividend
 is reduced by 62 (or 61) bits of exponent at a time, with quotient digits that are at
 most two (or four) too small.
 */
module FracModrem {
  import opened Words
  import opened Wide
  import opened Estimate
  import FracDiv
  import ShrJam

  // ---- The reduction, on integers --------------------------------------------------------

  /** The dividend a is q times b, plus what x still stands for at exponent e. */
  ghost predicate Reduced(a: int, b: int, x: int, e: nat, q: int) {
    a * W == q * (b * W) + x * Pow2(e) && 0 <= x < b * W
  }

  /** One pass of the loop: subtract a digit, move s bits of exponent into the value. */
  lemma ReduceStep(a: int, b: int, x: int, e: nat, q: int, digit: int, slack: int, s: nat)
    requires Reduced(a, b, x, e, q) && e > 64 && s <= 64 && b > 0 && digit >= 0
    requires digit * b <= x < (digit + slack) * b && slack * Pow2(s) <= W && slack >= 0
    ensures Reduced(a, b, (x - digit * b) * Pow2(s), e - s, q + digit * Pow2(e - 64))
  {
    hide Pow2;
    var y, p := x - digit * b, Pow2(s);
    assert Pow2(e) == p * Pow2(e - s) by { Pow2Add(s, e - s); }
    assert Pow2(e) == W * Pow2(e - 64) by { Pow2Add(64, e - 64); Pow2Values(); }
    StepSplit(x, digit, b, y, p, Pow2(e - s), Pow2(e - 64), Pow2(e));
    StepJoin(q, digit, Pow2(e - 64), b);
    assert 0 <= y < slack * b by { assert (digit + slack) * b == digit * b + slack * b; }
    MulMono(0, y, p);
    StepRange(y, slack, b, p);
  }

  lemma StepSplit(x: int, digit: int, b: int, y: int, p: int, p1: int, p2: int, pe: int)
    requires x == digit * b + y && pe == p * p1 && pe == W * p2
    ensures x * pe == digit * p2 * (b * W) + y * p * p1
  {
    assert x * pe == digit * b * pe + y * pe;
    assert digit * b * (W * p2) == digit * p2 * (b * W) by {
      MulAssoc(digit * b, W, p2);
      MulAssoc(digit, p2, b * W);
      MulAssoc(digit, b, W * p2);
      MulAssoc(b, W, p2);
      MulAssoc(p2, b, W);
    }
    MulAssoc(y, p, p1);
  }

  lemma StepJoin(q: int, digit: int, p2: int, b: int)
    ensures (q + digit * p2) * (b * W) == q * (b * W) + digit * p2 * (b * W)
  {
  }

  lemma StepRange(y: int, slack: int, b: int, p: int)
    requires 0 <= y < slack * b && b > 0 && p >= 1 && slack * p <= W
    ensures y * p < b * W
  {
    MulMono(y, slack * b - 1, p);
    assert (slack * b - 1) * p == slack * p * b - p by { MulAssoc(slack, b, p); MulAssoc(slack, p, b); }
    MulMono(slack * p, W, b);
  }

  /** The last digits: what is left is the remainder, scaled. */
  lemma LastDigit(a: int, b: int, x: int, e: nat, q: int, digit: int, y: int)
    requires Reduced(a, b, x, e, q) && e <= 64 && b > 0
    requires x == digit * (b * Pow2(64 - e)) + y && 0 <= y < b * Pow2(64 - e)
    ensures a == (q + digit) * b + a % b && a / b == q + digit && y == a % b * Pow2(64 - e)
  {
    hide Pow2;
    var p, p' := Pow2(e), Pow2(64 - e);
    ComplementPowers(e);
    assert x * p == digit * (b * W) + y * p by {
      assert x * p == digit * (b * p') * p + y * p;
      MulAssoc(digit, b * p', p);
      MulAssoc(b, p', p);
    }
    var r := a - (q + digit) * b;
    assert r * W == y * p by {
      assert (q + digit) * b * W == q * (b * W) + digit * (b * W) by { MulAssoc(q + digit, b, W); }
    }
    assert y == r * p' by { CancelPower(r, y, p, p'); }
    assert 0 <= r < b by {
      if r < 0 { MulMono(r, -1, p'); }
      if r >= b { MulMono(b, r, p'); }
    }
    DivUnique(a, b, q + digit, r);
  }

  lemma CancelPower(r: int, y: int, p: int, p': int)
    requires p >= 1 && p * p' == W && r * W == y * p
    ensures y == r * p'
  {
    assert r * p' * p == y * p by { MulAssoc(r, p', p); }
    if r * p' < y { MulMono(r * p' + 1, y, p); }
    if r * p' > y { MulMono(y + 1, r * p', p); }
  }

  /** Digits enter the 64-bit quotient register with weight 2^(e - s), but count 2^(e - 64). */
  lemma QuotientRegister(c: int, e: nat, first: int, m: int, loops: int, digit: int, s: nat)
    requires s <= 64 < e && m == Pow2(64 - s) && c * Pow2(e) == first + m * loops
    ensures (c * Pow2(s) + digit) * Pow2(e - s) == first + m * (loops + digit * Pow2(e - 64))
  {
    hide Pow2;
    var p := Pow2(e - s);
    assert Pow2(e) == Pow2(s) * p by { Pow2Add(s, e - s); }
    assert p == m * Pow2(e - 64) by { Pow2Add(64 - s, e - 64); }
    MulAssoc(c, Pow2(s), p);
    MulAssoc(digit, m, Pow2(e - 64));
    assert (c * Pow2(s) + digit) * p == c * Pow2(s) * p + digit * p;
    assert m * (loops + digit * Pow2(e - 64)) == m * loops + m * (digit * Pow2(e - 64));
  }

  // ---- The mathematical result -----------------------------------------------------------

  /** Whether the remainder is taken from the next multiple up: nearest, ties to an even quotient. */
  predicate RoundUp(a: nat, b: nat)
    requires b > 0
  {
    b - a % b < a % b || (b - a % b == a % b && (a / b) % 2 == 1)
  }

  function Remainder(a: nat, b: nat, truncate: bool): nat
    requires b > 0
  {
    if !truncate && RoundUp(a, b) then b - a % b else a % b
  }

  /** The IEEE remainder: a minus the nearest multiple of b, the even one of two equally near. */
  lemma NearestEven(a: nat, b: nat)
    requires b > 0
    ensures var n := a / b + (if RoundUp(a, b) then 1 else 0);
            var r := Remainder(a, b, false);
            && a == n * b + (if RoundUp(a, b) then 0 - r else r)
            && 2 * r <= b && (2 * r == b ==> n % 2 == 0)
  {
    assert a == a / b * b + a % b;
    assert (a / b + 1) * b == a / b * b + b;
  }

  // ---- frac64_modrem ---------------------------------------------------------------------

  /** Parts of a finite number: sign, exponent and significand; the significand of zero is not used. */
  datatype Parts = Parts(zero: bool, sign: bool, exp: int, frac: int)

  /** A digit that is at most two too small, from the estimate that is at most two too large. */
  method LowDigit64(a0: Word, a1: Word, b: Word) returns (q: Word)
    requires TWO63 <= b && Val2(a0, a1) < b * W
    ensures q * b <= Val2(a0, a1) < (q + 3) * b && q == Digit(Val2(a0, a1), b, 62)
  {
    assert a0 < b;
    var z := EstimateDiv128To64(a0, a1, b);
    q := if z > 2 then z - 2 else 0;
    if z <= 2 { MulMono(z + 1, 3, b); }
  }

  /** The state of the quotient: exact, and as the 64-bit register holds it. */
  ghost predicate QuotientState(first: int, loops: int, m: int, q: int, quot: Word, e: nat) {
    && q == first + loops && loops >= 0 && loops % 2 == 0
    && exists c: int :: quot == c % W && c * Pow2(e) == first + m * loops
  }

  lemma QuotientStep(first: int, loops: int, m: int, q: int, quot: Word, e: nat, digit: Word, s: nat)
    requires QuotientState(first, loops, m, q, quot, e) && s < 64 < e && m == Pow2(64 - s)
    ensures QuotientState(first, loops + digit * Pow2(e - 64), m, q + digit * Pow2(e - 64),
                          (Shl(quot, s) + digit) % W, e - s)
  {
    hide Pow2, Shl;
    var c :| quot == c % W && c * Pow2(e) == first + m * loops;
    QuotientRegister(c, e, first, m, loops, digit, s);
    assert (c * Pow2(s) + digit) % W == (Shl(quot, s) + digit) % W by { RegisterStep(c, quot, s, digit); }
    EvenWeight(digit, e);
  }

  lemma RegisterStep(c: int, quot: Word, s: nat, digit: int)
    requires quot == c % W
    ensures (c * Pow2(s) + digit) % W == (Shl(quot, s) + digit) % W
  {
    var k, p := c / W, Pow2(s);
    var j := quot * p / W;
    assert c == k * W + quot;
    assert c * p == k * p * W + quot * p by { MulAssoc(k, W, p); MulAssoc(k, p, W); }
    assert quot * p == j * W + Shl(quot, s);
    assert c * p + digit == Shl(quot, s) + digit + (k * p + j) * W by { assert (k * p + j) * W == k * p * W + j * W; }
    DivAddMul(Shl(quot, s) + digit, W, k * p + j);
  }

  lemma EvenWeight(digit: int, e: nat)
    requires e > 64 && digit >= 0
    ensures (digit * Pow2(e - 64)) % 2 == 0 && digit * Pow2(e - 64) >= 0
  {
    var h := Pow2(e - 65);
    MulAssoc(digit, 2, h);
    MulMono(0, digit, h);
    DivAddMul(0, 2, digit * h);
  }

  /** The exponent left when the reduction loop, s bits at a time, stops. */
  function Left(d: nat, s: nat): (e: nat)
    requires 0 < s <= 64
    ensures e <= 64 && (d <= 64 ==> e == d)
    decreases d
  {
    if d <= 64 then d else Left(d - s, s)
  }

  /** A divisor of one or two words, normalised, for passes of 62 or 61 bits. */
  predicate Divisor(b: int, s: nat) { (s == 62 && TWO63 <= b < W) || (s == 61 && TWO63 * W <= b < W2) }

  /** The digit a pass takes of x: the estimate from the divisor's top word, lowered so as not to be high. */
  function Digit(x: int, b: int, s: nat): int
    requires Divisor(b, s)
  {
    if s == 62 then
      var z := Approx(x, b); if z > 2 then z - 2 else 0
    else
      var z := Approx(x / W, b / W); if z > 4 then z - 4 else 0
  }

  /** The digits that the passes take, each at its weight in the quotient. */
  function LoopSum(x: int, b: int, e: nat, s: nat): int
    requires Divisor(b, s)
    decreases e
  {
    if e <= 64 then 0
    else
      var q := Digit(x, b, s);
      q * Pow2(e - 64) + LoopSum((x - q * b) * Pow2(s), b, e - s, s)
  }

  lemma LoopSumStep(x: int, b: int, e: nat, s: nat, q: int)
    requires Divisor(b, s) && e > 64 && q == Digit(x, b, s)
    ensures LoopSum(x, b, e, s) == q * Pow2(e - 64) + LoopSum((x - q * b) * Pow2(s), b, e - s, s)
  {
  }

  /** Whether the divisor goes into the dividend's significand. */
  function First(a: int, b: int): Word { if b <= a then 1 else 0 }

  /** The sum of the loop's digits, from the operands: significands a and b, exponents d apart. */
  function Loops(a: int, b: int, d: int, s: nat): int
    requires Divisor(b, s)
  {
    if d <= 64 then 0 else LoopSum((a - First(a, b) * b) * W, b, d, s)
  }

  /** The state of the reduction loop, s bits a pass, on values: v left at exponent e, `loops` taken, `quot` held. */
  ghost predicate Passing(a: int, b: int, x: int, first: Word, d: nat, s: nat, m: int, v: int, e: nat, loops: int, quot: Word) {
    && Divisor(b, s) && Left(e, s) == Left(d, s) && (e == 0 <==> d == 0) && (d <= 64 ==> e == d && loops == 0 && v == x * W)
    && loops + LoopSum(v, b, e, s) == LoopSum(x * W, b, d, s)
    && Reduced(a, b, v, e, first * Pow2(d) + loops)
    && QuotientState(first * Pow2(d), loops, m, first * Pow2(d) + loops, quot, e)
  }

  lemma PassStart(a: int, b: int, x: int, first: Word, d: nat, s: nat, m: int)
    requires Divisor(b, s) && 0 <= x < b && a == (first * b + x) * Pow2(d)
    ensures Passing(a, b, x, first, d, s, m, x * W, d, 0, first)
  {
    hide Pow2, Reduced, QuotientState, LoopSum;
    StartReduced(a, b, x, first, d);
    StartQuotient(first, d, m);
  }

  lemma PassStep(a: int, b: int, x: int, first: Word, d: nat, s: nat, m: int, v: int, e: nat, loops: int, quot: Word, digit: Word, slack: int)
    requires Passing(a, b, x, first, d, s, m, v, e, loops, quot) && e > 64 && digit == Digit(v, b, s)
    requires digit * b <= v < (digit + slack) * b && 0 <= slack <= m && m == Pow2(64 - s)
    ensures var v' := (v - digit * b) * Pow2(s);
            && Passing(a, b, x, first, d, s, m, v', e - s, loops + digit * Pow2(e - 64), (Shl(quot, s) + digit) % W)
            && 0 <= v' < b * W
  {
    hide Pow2, Reduced, QuotientState, LoopSum, Digit, Shl;
    var q := first * Pow2(d) + loops;
    ComplementPowers(s);
    MulMono(slack, m, Pow2(s));
    LoopSumStep(v, b, e, s, digit);
    ReduceStep(a, b, v, e, q, digit, slack, s);
    QuotientStep(first * Pow2(d), loops, m, q, quot, e, digit, s);
    ReducedRange(a, b, (v - digit * b) * Pow2(s), e - s, q + digit * Pow2(e - 64));
  }

  lemma PassRange(a: int, b: int, x: int, first: Word, d: nat, s: nat, m: int, v: int, e: nat, loops: int, quot: Word)
    requires Passing(a, b, x, first, d, s, m, v, e, loops, quot)
    ensures 0 <= v < b * W
  {
  }

  lemma PassDone(a: int, b: int, x: int, first: Word, d: nat, s: nat, m: int, v: int, e: nat, loops: int, quot: Word)
    requires Passing(a, b, x, first, d, s, m, v, e, loops, quot) && e <= 64
    ensures e == Left(d, s) && loops == LoopSum(x * W, b, d, s)
  {
  }

  /** The reduction loop: 62 bits of exponent at a time. */
  method Reduce64(x: Word, b: Word, first: Word, ghost a: int, d: nat) returns (a0: Word, a1: Word, e: nat, quot: Word, ghost loops: int)
    requires TWO63 <= b && x < b && first <= 1 && a == (first * b + x) * Pow2(d)
    ensures e == Left(d, 62) && loops == LoopSum(x * W, b, d, 62)
    ensures Passing(a, b, x, first, d, 62, 4, Val2(a0, a1), e, loops, quot)
  {
    hide Pow2, Passing, Shl, LoopSum, Digit;
    a0, a1, e, quot, loops := x, 0, d, first, 0;
    PassStart(a, b, x, first, d, 62, 4);
    assert Pow2(2) == 4 by { SixtyTwo(); }
    while e > 64
      invariant e >= 0 && Passing(a, b, x, first, d, 62, 4, Val2(a0, a1), e, loops, quot)
      decreases e
    {
      ghost var v := Val2(a0, a1);
      PassRange(a, b, x, first, d, 62, 4, v, e, loops, quot);
      var digit := LowDigit64(a0, a1, b);
      PassStep(a, b, x, first, d, 62, 4, v, e, loops, quot, digit, 3);
      var t1, t0 := Mul64(b, digit);
      a0, a1 := Sub128(a0, a1, t0, t1);
      a0, a1 := ShiftLeft128(a0, a1, 62);
      quot := (Shl(quot, 62) + digit) % W;
      loops := loops + digit * Pow2(e - 64);
      e := e - 62;
    }
    PassDone(a, b, x, first, d, 62, 4, Val2(a0, a1), e, loops, quot);
  }

  lemma SixtyTwo()
    ensures Pow2(62) * 4 == W && Pow2(1) == 2 && Pow2(2) == 4 && Pow2(61) * 8 == W && Pow2(3) == 8
  {
    Pow2Values();
  }

  lemma ReducedRange(a: int, b: int, x: int, e: nat, q: int)
    requires Reduced(a, b, x, e, q)
    ensures 0 <= x < b * W
  {
  }

  lemma StartReduced(a: int, b: int, x: int, first: int, d: nat)
    requires 0 <= x < b && a == (first * b + x) * Pow2(d)
    ensures Reduced(a, b, x * W, d, first * Pow2(d))
  {
    hide Pow2;
    ScaleUp(first, b, x, Pow2(d));
  }

  lemma ScaleUp(first: int, b: int, x: int, p: int)
    ensures (first * b + x) * p * W == first * p * (b * W) + x * W * p
  {
    var fb, fp := first * b, first * p;
    assert (fb + x) * p == fb * p + x * p;
    assert fb * p == fp * b by { MulAssoc(first, b, p); MulAssoc(first, p, b); }
    MulAssoc(fp, b, W);
    MulAssoc(x, p, W);
    MulAssoc(x, W, p);
  }

  lemma StartQuotient(first: Word, d: nat, m: int)
    ensures QuotientState(first * Pow2(d), 0, m, first * Pow2(d), first, d)
  {
    hide Pow2;
    var c: int := first;
    assert first == c % W && c * Pow2(d) == first * Pow2(d) + m * 0;
  }

  /** The high bits of the next digit, and what is left after them. */
  method TrimmedDigit64(a0: Word, a1: Word, b: Word, c: nat) returns (n: Word, x0: Word, x1: Word)
    requires TWO63 <= b && c < 64 && Val2(a0, a1) < b * W
    ensures Val2(a0, a1) == n * (b * Pow2(c)) + Val2(x0, x1)
  {
    hide Pow2, Shr, Shl, Low;
    var digit := LowDigit64(a0, a1, b);
    n := TopBits(digit, c);
    TrimDigit(Val2(a0, a1), b, digit, n, Low(digit, c), Pow2(c));
    var s1, s0 := Mul64(b, Shl(n, c));
    x0, x1 := Sub128(a0, a1, s0, s1);
  }

  /** A digit without its low c bits. */
  method TopBits(digit: Word, c: nat) returns (n: Word)
    requires c < 64
    ensures digit == n * Pow2(c) + Low(digit, c) && Shl(n, c) == n * Pow2(c)
  {
    hide Pow2, Shr, Low;
    ShrLow(digit, c);
    MulMono(1, Pow2(c), Shr(digit, c));
    n := Shr(digit, c);
  }

  /** Subtract the divisor while it fits, counting. */
  method SubtractWhile(x0: Word, x1: Word, t0: Word, t1: Word) returns (k: nat, y0: Word, y1: Word)
    requires Val2(t0, t1) > 0
    ensures Val2(x0, x1) == k * Val2(t0, t1) + Val2(y0, y1) && Val2(y0, y1) < Val2(t0, t1)
  {
    k, y0, y1 := 0, x0, x1;
    while t0 < y0 || (t0 == y0 && t1 <= y1)
      invariant Val2(x0, x1) == k * Val2(t0, t1) + Val2(y0, y1)
      decreases Val2(y0, y1)
    {
      k := k + 1;
      y0, y1 := Sub128(y0, y1, t0, t1);
    }
  }

  /** The final digits: at most 64 bits of exponent are left. */
  method LastDigit64(a0: Word, a1: Word, b: Word, e: nat) returns (x0: Word, x1: Word, q: Word, t0: Word, t1: Word)
    requires TWO63 <= b && 1 <= e <= 64 && Val2(a0, a1) < b * W
    ensures Val2(t0, t1) == b * Pow2(64 - e)
    ensures Val2(a0, a1) == q * (b * Pow2(64 - e)) + Val2(x0, x1) && Val2(x0, x1) < b * Pow2(64 - e)
    ensures q < Pow2(e)
  {
    hide Pow2;
    var c := 64 - e;
    ScaledDivisor(b, c);
    t0, t1 := ShiftLeft128(0, b, c);
    var n, y0, y1 := TrimmedDigit64(a0, a1, b, c);
    var k;
    k, x0, x1 := SubtractWhile(y0, y1, t0, t1);
    ghost var t := b * Pow2(c);
    assert (n + k) * t == n * t + k * t;
    ComplementPowers(e);
    FinalDigit(Val2(a0, a1), b, Pow2(c), Pow2(e), n + k, Val2(x0, x1));
    q := n + k;
  }

  /** Dropping low bits of a digit keeps it low enough. */
  lemma TrimDigit(v: int, b: int, digit: int, n: int, low: int, p: int)
    requires digit == n * p + low && 0 <= low && b > 0 && digit * b <= v
    ensures b * (n * p) <= v && b * (n * p) == n * (b * p)
  {
    MulMono(n * p, digit, b);
    MulAssoc(b, n, p);
  }

  lemma ScaledDivisor(b: Word, c: nat)
    requires c < 64 && b > 0
    ensures 0 < b * Pow2(c) < W2
  {
    hide Pow2;
    ShlSplit(b, c);
    Pow2Mono(c, 64);
    Pow2Values();
    MulMono(1, Pow2(c), b);
  }

  lemma FinalDigit(v: int, b: int, p: int, pe: int, n: int, x: int)
    requires pe * p == W && pe <= W && b > 0 && p >= 1 && v < b * W && v == n * (b * p) + x && 0 <= x
    ensures n < pe
  {
    assert pe * (b * p) == b * W by { MulAssoc(b, pe, p); }
    MulMono(1, b, p);
    if n >= pe { MulMono(pe, n, b * p); }
  }

  /** The parts hold the remainder of a by b, in units of the divisor's last place. */
  ghost predicate IsRemainder(sign: bool, a: nat, b: nat, bexp: int, truncate: bool, r: Parts)
    requires b > 0
  {
    var rem := Remainder(a, b, truncate);
    && r.sign == (sign != (!truncate && RoundUp(a, b)))
    && r.zero == (rem == 0)
    && (!r.zero ==> r.exp <= bexp && r.frac == rem * Pow2(bexp - r.exp))
  }

  /** Normalising a remainder shifts it past the words that hold no bits. */
  lemma NormalShift(rem: int, v: int, e: nat, shift: nat, limit: int)
    requires e <= 64 && 0 <= rem < limit && v == rem * Pow2(64 - e) && v * Pow2(shift) >= limit * TWO63
    ensures shift >= e && v * Pow2(shift) == rem * Pow2(shift - e) * W
  {
    hide Pow2;
    var p, s := Pow2(64 - e), Pow2(shift);
    MulAssoc(rem, p, s);
    Pow2Add(64 - e, shift);
    if shift < e {
      Pow2Mono(64 - e + shift, 63);
      Pow2Values();
      MulMono(Pow2(64 - e + shift), TWO63, rem);
      MulMono(rem, limit - 1, TWO63);
    } else {
      Pow2Add(shift - e, 64);
      Pow2Values();
      MulAssoc(rem, Pow2(shift - e), W);
    }
  }

  /** The tail of frac64_modrem: normalise x, which is the remainder scaled by 2^(64 - e). */
  method Normalise64(x0: Word, x1: Word, bexp: int, e: nat, sign: bool, ghost rem: int) returns (r: Parts)
    requires e <= 64 && 0 <= rem < W && Val2(x0, x1) == rem * Pow2(64 - e)
    ensures r.sign == sign && r.zero == (rem == 0)
    ensures !r.zero ==> r.exp <= bexp && r.frac == rem * Pow2(bexp - r.exp) && TWO63 <= r.frac < W
  {
    hide Pow2, Clz;
    if x0 != 0 {
      var shift := Clz(x0);
      ComplementPowers(shift);
      TopFits(x0, x1, Pow2(shift), Pow2(64 - shift));
      var z0, z1 := ShiftLeft128(x0, x1, shift);
      NormalShift(rem, Val2(x0, x1), e, shift, W);
      WholeWord(z0, z1, rem * Pow2(shift - e));
      r := Parts(false, sign, bexp + e - shift, ShrJam.OrFlag(z0, z1 != 0));
    } else if x1 != 0 {
      var shift := Clz(x1);
      ShiftedRemainder(rem, x1, e, shift);
      r := Parts(false, sign, bexp + e - (shift + 64), Shl(x1, shift));
    } else {
      r := Parts(true, sign, 0, 0);
    }
    MulMono(1, Pow2(64 - e), rem);
  }

  lemma TopFits(x0: Word, x1: Word, p: int, p': int)
    requires p >= 1 && p * p' == W && TWO63 <= x0 * p < W
    ensures W * TWO63 <= Val2(x0, x1) * p < W2
  {
    assert Val2(x0, x1) * p == x0 * p * W + x1 * p;
    MulMono(x1, W - 1, p);
    MulMono(0, x1, p);
    if x0 >= p' { MulMono(p', x0, p); }
    MulMono(x0 + 1, p', p);
  }

  lemma WholeWord(z0: Word, z1: Word, y: int)
    requires Val2(z0, z1) == y * W
    ensures z1 == 0 && z0 == y
  {
  }

  lemma ShiftedRemainder(rem: int, x: Word, e: nat, shift: nat)
    requires e <= 64 && x == rem * Pow2(64 - e) && x * Pow2(shift) < W
    ensures Shl(x, shift) == rem * Pow2(shift + 64 - e) == x * Pow2(shift)
  {
    hide Pow2;
    Pow2Add(64 - e, shift);
    MulAssoc(rem, Pow2(64 - e), Pow2(shift));
    MulMono(0, x, Pow2(shift));
  }

  /** Replace x by t - x when that is nearer, or as near and the quotient odd. */
  method RoundNearest64(x0: Word, x1: Word, t0: Word, t1: Word, odd: bool) returns (y0: Word, y1: Word, flip: bool)
    requires Val2(x0, x1) < Val2(t0, t1)
    ensures var x, u := Val2(x0, x1), Val2(t0, t1) - Val2(x0, x1);
            flip == (u < x || (u == x && odd)) && Val2(y0, y1) == if flip then u else x
  {
    var u0, u1 := Sub128(t0, t1, x0, x1);
    flip := u0 < x0 || (u0 == x0 && u1 < x1) || (u0 == x0 && u1 == x1 && odd);
    y0, y1 := if flip then u0 else x0, if flip then u1 else x1;
  }

  /** The comparison of scaled values is the comparison of remainders. */
  lemma ScaledRounding(a: nat, b: nat, p: int, x: int, t: int, odd: bool)
    requires b > 0 && p >= 1 && x == a % b * p && t == b * p && odd == ((a / b) % 2 == 1)
    ensures RoundUp(a, b) == (t - x < x || (t - x == x && odd))
    ensures t - x == (b - a % b) * p
  {
    var r := a % b;
    assert (b - r) * p == b * p - r * p;
    if b - r < r { MulMono(b - r + 1, r, p); }
    if b - r > r { MulMono(r + 1, b - r, p); }
  }

  lemma QuotientParity(first: int, d: nat, loops: int, digit: int, n: int)
    requires n == first * Pow2(d) + loops + digit && loops % 2 == 0
    ensures d >= 1 ==> n % 2 == digit % 2
    ensures d == 0 ==> n % 2 == (first + digit) % 2
  {
    if d >= 1 {
      var k := first * Pow2(d - 1);
      assert first * Pow2(d) == 2 * k by { MulAssoc(first, 2, Pow2(d - 1)); }
      EvenSum(k, loops, digit);
    } else {
      EvenSum(0, loops, first + digit);
    }
  }

  lemma EvenSum(k: int, loops: int, x: int)
    requires loops % 2 == 0
    ensures (2 * k + loops + x) % 2 == x % 2
  {
  }

  /** The dividend in units of the divisor's last place; one halving may drop its low bit. */
  function Dividend(frac: nat, d: int): nat
    requires d >= -1
  {
    MulMono(0, frac, Pow2(if d == -1 then 0 else d));
    if d == -1 then frac / 2 else frac * Pow2(d)
  }

  /** The low 64 bits that the quotient register ends with: digits of the reduction loop are counted m times. */
  lemma FinalRegister(first: int, loops: int, m: int, quot: Word, e: nat, digit: Word, n: int)
    requires QuotientState(first, loops, m, first + loops, quot, e) && 1 <= e <= 64 && n == first + loops + digit
    ensures ((if e < 64 then Shl(quot, e) else 0) + digit) % W == (n + (m - 1) * loops) % W
  {
    hide Pow2, Shl;
    var c :| quot == c % W && c * Pow2(e) == first + m * loops;
    RegisterStep(c, quot, e, digit);
    assert m * loops == loops + (m - 1) * loops;
    if e == 64 { FullShift(quot); }
  }

  lemma FullShift(quot: Word)
    ensures Shl(quot, 64) == 0
  {
    hide Pow2;
    Pow2Values();
    DivAddMul(0, W, quot);
  }

  /** What the division part hands to the rounding: remainder and divisor scaled alike, the parity and the
      register of the quotient. */
  ghost predicate Divided(a: nat, b: nat, e: nat, x: int, t: int, q: int, quot: Word, excess: int)
    requires b > 0
  {
    && e <= 64 && x == a % b * Pow2(64 - e) && t == b * Pow2(64 - e)
    && q % 2 == (a / b) % 2 && quot == (a / b + excess) % W
  }

  lemma DividedFrom(a: nat, b: nat, first: Word, d: nat, loops: int, m: int, reg: Word, e: nat, v: int, digit: int, x: int)
    requires b > 0 && Reduced(a, b, v, e, first * Pow2(d) + loops) && e <= 64 && (e == 0 <==> d == 0)
    requires QuotientState(first * Pow2(d), loops, m, first * Pow2(d) + loops, reg, e)
    requires v == digit * (b * Pow2(64 - e)) + x && 0 <= x < b * Pow2(64 - e)
    requires (if e == 0 then digit == 0 && loops == 0 else 0 <= digit < W)
    ensures var q: int := if e == 0 then first else digit;
            var quot: Word := if e == 0 then reg else ((if e < 64 then Shl(reg, e) else 0) + digit) % W;
            Divided(a, b, e, x, b * Pow2(64 - e), q, quot, (m - 1) * loops)
    ensures a / b == first * Pow2(d) + loops + digit
  {
    hide Pow2, QuotientState, Reduced, Shl;
    var n := first * Pow2(d) + loops;
    LastDigit(a, b, v, e, n, digit, x);
    LoopsEven(first * Pow2(d), loops, m, n, reg, e);
    QuotientParity(first, d, loops, digit, a / b);
    if e > 0 {
      FinalRegister(first * Pow2(d), loops, m, reg, e, digit, n + digit);
    } else {
      RegisterAtZero(first, m, reg);
      assert (m - 1) * loops == 0;
    }
  }

  /** What the quotient register holds: the quotient n with the loop's digits counted m times.  It is the low 64 bits
      of n if and only if those digits add up to a multiple of 2^64. */
  ghost predicate IsRegister(a: nat, b: nat, d: int, s: nat, m: int, quot: Word)
    requires Divisor(b, s) && d >= -1
  {
    var n, loops := Dividend(a, d) / b, Loops(a, b, d, s);
    && quot == (n + (m - 1) * loops) % W
    && (quot == n % W <==> loops % W == 0)
    && (d > 64 ==> 0 <= n - First(a, b) * Pow2(d) - loops < Pow2(Left(d, s)))
    && (d > 64 && quot == n % W ==> quot < Pow2(Left(d, s)))
  }

  lemma RegisterFrom(a: nat, b: nat, d: int, s: nat, m: int, loops: int, n: int, quot: Word)
    requires Divisor(b, s) && d >= -1 && (m == 4 || m == 8) && n == Dividend(a, d) / b && loops == Loops(a, b, d, s)
    requires quot == (n + (m - 1) * loops) % W
    requires d > 64 ==> 0 <= n - First(a, b) * Pow2(d) - loops < Pow2(Left(d, s))
    ensures IsRegister(a, b, d, s, m, quot)
  {
    hide Pow2, LoopSum;
    TimesThreeOrSeven(n, loops);
    if d > 64 { LowQuotient(n, First(a, b), d, loops, Left(d, s)); }
  }

  /** The division part of frac64_modrem, after the first subtraction. */
  method DivideOut64(x: Word, b: Word, first: Word, ghost a: nat, d: nat)
    returns (x0: Word, x1: Word, t0: Word, t1: Word, e: nat, q: Word, quot: Word, ghost loops: int)
    requires TWO63 <= b && x < b && first <= 1 && a == (first * b + x) * Pow2(d)
    ensures Divided(a, b, e, Val2(x0, x1), Val2(t0, t1), q, quot, 3 * loops)
    ensures loops == LoopSum(x * W, b, d, 62) && (d <= 64 ==> loops == 0)
    ensures d > 64 ==> 0 <= a / b - first * Pow2(d) - loops < Pow2(Left(d, 62))
  {
    hide Pow2, QuotientState, Reduced, Divided, Shl, LoopSum;
    x0, x1, e, quot, loops := Reduce64(x, b, first, a, d);
    ghost var n := first * Pow2(d) + loops;
    ghost var v, reg := Val2(x0, x1), quot;
    ReducedRange(a, b, v, e, n);
    if e > 0 {
      x0, x1, q, t0, t1 := LastDigit64(x0, x1, b, e);
      quot := ((if e < 64 then Shl(quot, e) else 0) + q) % W;
      DividedFrom(a, b, first, d, loops, 4, reg, e, v, q, Val2(x0, x1));
    } else {
      t0, t1, q := b, 0, first;
      assert Pow2(64) == W by { Pow2Values(); }
      DividedFrom(a, b, first, d, loops, 4, reg, e, v, 0, Val2(x0, x1));
    }
  }

  /** frac64_modrem on normalised significands.  `truncate` says that the caller wants the quotient. */
  method Frac64Modrem(asign: bool, aexp: int, afrac: Word, bexp: int, bfrac: Word, truncate: bool)
    returns (r: Parts, quot: Word)
    requires TWO63 <= afrac && TWO63 <= bfrac
    ensures aexp - bexp < -1 ==> r == Parts(false, asign, aexp, afrac) && quot == 0
    ensures aexp - bexp >= -1 ==>
      var d := aexp - bexp;
      && IsRemainder(asign, Dividend(afrac, d), bfrac, bexp, truncate, r)
      && (!r.zero ==> TWO63 <= r.frac < W)
      && IsRegister(afrac, bfrac, d, 62, 4, quot)
  {
    hide Pow2, RoundUp, LoopSum, IsRegister;
    var d := aexp - bexp;
    if d < -1 {
      return Parts(false, asign, aexp, afrac), 0;
    }
    var x, b := afrac, bfrac;
    ghost var a := Dividend(afrac, d);
    if d == -1 {
      x, d := x / 2, 0;
    }
    var first: Word := if b <= x then 1 else 0;
    x := if b <= x then x - b else x;
    assert Pow2(0) == 1 by { PowZero(); }
    assert a == (first * b + x) * Pow2(d);
    var x0, x1, t0, t1, e, q;
    ghost var loops;
    x0, x1, t0, t1, e, q, quot, loops := DivideOut64(x, b, first, a, d);
    RegisterFrom(afrac, b, aexp - bexp, 62, 4, loops, a / b, quot);
    ScaledRounding(a, b, Pow2(64 - e), Val2(x0, x1), Val2(t0, t1), q % 2 == 1);
    RemainderRange(a, b, Pow2(64 - e));
    var flip := false;
    if !truncate {
      x0, x1, flip := RoundNearest64(x0, x1, t0, t1, q % 2 == 1);
    }
    r := Normalise64(x0, x1, bexp, e, asign != flip, Remainder(a, b, truncate));
  }

  lemma RemainderRange(a: nat, b: nat, p: int)
    requires b > 0 && p >= 1
    ensures 0 <= a % b * p < b * p
  {
    MulMono(0, a % b, p);
    MulMono(a % b, b - 1, p);
  }

  lemma LoopsEven(first: int, loops: int, m: int, q: int, quot: Word, e: nat)
    requires QuotientState(first, loops, m, q, quot, e)
    ensures loops % 2 == 0
  {
  }

  lemma RegisterAtZero(first: Word, m: int, quot: Word)
    requires QuotientState(first * Pow2(0), 0, m, first * Pow2(0), quot, 0)
    ensures quot == first && Pow2(0) == 1
  {
    var c :| quot == c % W && c * Pow2(0) == first * Pow2(0) + m * 0;
  }

  // ---- frac128_modrem --------------------------------------------------------------------

  /** A digit that is at most four too small. */
  method LowDigit128(a0: Word, a1: Word, a2: Word, b0: Word, b1: Word) returns (q: Word)
    requires TWO63 <= b0 && Val3(a0, a1, a2) < Val2(b0, b1) * W
    ensures q * Val2(b0, b1) <= Val3(a0, a1, a2) < (q + 5) * Val2(b0, b1)
    ensures q == Digit(Val3(a0, a1, a2), Val2(b0, b1), 61)
  {
    hide Approx, Digit;
    ghost var b := Val2(b0, b1);
    var z := EstimateDiv128To64(a0, a1, b0);
    FracDiv.WordEstimate(a0, a1, a2, b0, b1, z);
    LoweredBy(4, z, b, Val3(a0, a1, a2));
    q := if z > 4 then z - 4 else 0;
    DigitOfWords(a0, a1, a2, b0, b1, z);
  }

  /** An estimate at most k high, lowered by k, is at most k low. */
  lemma LoweredBy(k: nat, z: Word, b: int, v: int)
    requires b > 0 && v >= 0 && 0 - k * b <= v - b * z < b
    ensures var q := if z > k then z - k else 0;
            q * b <= v < (q + (k + 1)) * b
  {
    assert (z - k) * b == b * z - k * b && (z + 1) * b == b * z + b;
    if z <= k { MulMono(z + 1, k + 1, b); }
  }

  lemma DigitOfWords(a0: Word, a1: Word, a2: Word, b0: Word, b1: Word, z: int)
    requires TWO63 <= b0 && z == Approx(Val2(a0, a1), b0)
    ensures Divisor(Val2(b0, b1), 61)
    ensures Digit(Val3(a0, a1, a2), Val2(b0, b1), 61) == if z > 4 then z - 4 else 0
  {
    hide Approx;
    DivUnique(Val3(a0, a1, a2), W, Val2(a0, a1), a2);
    DivUnique(Val2(b0, b1), W, b0, b1);
  }

  /** Take a digit's worth off and move 61 bits of exponent into the value. */
  method SubtractAndShift(a0: Word, a1: Word, a2: Word, b0: Word, b1: Word, digit: Word) returns (z0: Word, z1: Word, z2: Word)
    requires digit * Val2(b0, b1) <= Val3(a0, a1, a2)
    requires (Val3(a0, a1, a2) - digit * Val2(b0, b1)) * Pow2(61) < Val2(b0, b1) * W
    ensures Val3(z0, z1, z2) == (Val3(a0, a1, a2) - digit * Val2(b0, b1)) * Pow2(61)
  {
    hide Pow2;
    ghost var b := Val2(b0, b1);
    assert b * W < W3;
    var t0, t1, t2 := Mul128By64(b0, b1, digit);
    assert b * digit == digit * b;
    z0, z1, z2 := Sub192(a0, a1, a2, t0, t1, t2);
    z0, z1, z2 := ShiftLeft192(z0, z1, z2, 61);
  }

  /** The reduction loop: 61 bits of exponent at a time. */
  method Reduce128(x0: Word, x1: Word, b0: Word, b1: Word, first: Word, ghost a: int, d: nat)
    returns (a0: Word, a1: Word, a2: Word, e: nat, quot: Word, ghost loops: int)
    requires TWO63 <= b0 && Val2(x0, x1) < Val2(b0, b1) && a == (first * Val2(b0, b1) + Val2(x0, x1)) * Pow2(d)
    ensures e == Left(d, 61) && loops == LoopSum(Val2(x0, x1) * W, Val2(b0, b1), d, 61)
    ensures Passing(a, Val2(b0, b1), Val2(x0, x1), first, d, 61, 8, Val3(a0, a1, a2), e, loops, quot)
  {
    hide Pow2, Passing, Shl, LoopSum, Digit;
    ghost var x, b := Val2(x0, x1), Val2(b0, b1);
    a0, a1, a2, e, quot, loops := x0, x1, 0, d, first, 0;
    assert Val3(x0, x1, 0) == x * W;
    PassStart(a, b, x, first, d, 61, 8);
    assert Pow2(3) == 8 by { SixtyTwo(); }
    while e > 64
      invariant e >= 0 && Passing(a, b, x, first, d, 61, 8, Val3(a0, a1, a2), e, loops, quot)
      decreases e
    {
      ghost var v := Val3(a0, a1, a2);
      PassRange(a, b, x, first, d, 61, 8, v, e, loops, quot);
      var digit := LowDigit128(a0, a1, a2, b0, b1);
      PassStep(a, b, x, first, d, 61, 8, v, e, loops, quot, digit, 5);
      a0, a1, a2 := SubtractAndShift(a0, a1, a2, b0, b1, digit);
      quot := (Shl(quot, 61) + digit) % W;
      loops := loops + digit * Pow2(e - 64);
      e := e - 61;
    }
    PassDone(a, b, x, first, d, 61, 8, Val3(a0, a1, a2), e, loops, quot);
  }

  method TrimmedDigit128(a0: Word, a1: Word, a2: Word, b0: Word, b1: Word, c: nat)
    returns (n: Word, x0: Word, x1: Word, x2: Word)
    requires TWO63 <= b0 && c < 64 && Val3(a0, a1, a2) < Val2(b0, b1) * W
    ensures Val3(a0, a1, a2) == n * (Val2(b0, b1) * Pow2(c)) + Val3(x0, x1, x2)
  {
    hide Pow2, Shr, Shl, Low;
    var digit := LowDigit128(a0, a1, a2, b0, b1);
    n := TopBits(digit, c);
    TrimDigit(Val3(a0, a1, a2), Val2(b0, b1), digit, n, Low(digit, c), Pow2(c));
    var s0, s1, s2 := Mul128By64(b0, b1, Shl(n, c));
    x0, x1, x2 := Sub192(a0, a1, a2, s0, s1, s2);
  }

  method SubtractWhile192(x0: Word, x1: Word, x2: Word, t0: Word, t1: Word, t2: Word)
    returns (k: nat, y0: Word, y1: Word, y2: Word)
    requires Val3(t0, t1, t2) > 0
    ensures Val3(x0, x1, x2) == k * Val3(t0, t1, t2) + Val3(y0, y1, y2) && Val3(y0, y1, y2) < Val3(t0, t1, t2)
  {
    k, y0, y1, y2 := 0, x0, x1, x2;
    while t0 < y0 || (t0 == y0 && (t1 < y1 || (t1 == y1 && t2 <= y2)))
      invariant Val3(x0, x1, x2) == k * Val3(t0, t1, t2) + Val3(y0, y1, y2)
      decreases Val3(y0, y1, y2)
    {
      k := k + 1;
      y0, y1, y2 := Sub192(y0, y1, y2, t0, t1, t2);
    }
  }

  method LastDigit128(a0: Word, a1: Word, a2: Word, b0: Word, b1: Word, e: nat)
    returns (x0: Word, x1: Word, x2: Word, q: Word, t0: Word, t1: Word, t2: Word)
    requires TWO63 <= b0 && 1 <= e <= 64 && Val3(a0, a1, a2) < Val2(b0, b1) * W
    ensures Val3(t0, t1, t2) == Val2(b0, b1) * Pow2(64 - e)
    ensures Val3(a0, a1, a2) == q * (Val2(b0, b1) * Pow2(64 - e)) + Val3(x0, x1, x2)
    ensures Val3(x0, x1, x2) < Val2(b0, b1) * Pow2(64 - e) && q < Pow2(e)
  {
    hide Pow2;
    var c := 64 - e;
    ghost var b := Val2(b0, b1);
    ScaledDivisor128(b, c);
    t0, t1, t2 := ShiftLeft192(0, b0, b1, c);
    var n, y0, y1, y2 := TrimmedDigit128(a0, a1, a2, b0, b1, c);
    var k;
    k, x0, x1, x2 := SubtractWhile192(y0, y1, y2, t0, t1, t2);
    ghost var t := b * Pow2(c);
    assert (n + k) * t == n * t + k * t;
    ComplementPowers(e);
    FinalDigit(Val3(a0, a1, a2), b, Pow2(c), Pow2(e), n + k, Val3(x0, x1, x2));
    q := n + k;
  }

  lemma ScaledDivisor128(b: int, c: nat)
    requires c < 64 && 0 < b < W2
    ensures 0 < b * Pow2(c) < W3
  {
    hide Pow2;
    Pow2Mono(c, 64);
    Pow2Values();
    MulMono(1, Pow2(c), b);
    MulMono(Pow2(c), W, b);
  }

  /** The division part of frac128_modrem, after the first subtraction. */
  method DivideOut128(x0: Word, x1: Word, b0: Word, b1: Word, first: Word, ghost a: nat, d: nat)
    returns (y0: Word, y1: Word, y2: Word, t0: Word, t1: Word, t2: Word, e: nat, q: Word, quot: Word, ghost loops: int)
    requires TWO63 <= b0 && Val2(x0, x1) < Val2(b0, b1)
    requires a == (first * Val2(b0, b1) + Val2(x0, x1)) * Pow2(d)
    ensures Divided(a, Val2(b0, b1), e, Val3(y0, y1, y2), Val3(t0, t1, t2), q, quot, 7 * loops)
    ensures loops == LoopSum(Val2(x0, x1) * W, Val2(b0, b1), d, 61) && (d <= 64 ==> loops == 0)
    ensures d > 64 ==> 0 <= a / Val2(b0, b1) - first * Pow2(d) - loops < Pow2(Left(d, 61))
  {
    hide Pow2, QuotientState, Reduced, Divided, Shl, LoopSum;
    ghost var b := Val2(b0, b1);
    y0, y1, y2, e, quot, loops := Reduce128(x0, x1, b0, b1, first, a, d);
    ghost var n := first * Pow2(d) + loops;
    ghost var v, reg := Val3(y0, y1, y2), quot;
    ReducedRange(a, b, v, e, n);
    if e > 0 {
      y0, y1, y2, q, t0, t1, t2 := LastDigit128(y0, y1, y2, b0, b1, e);
      quot := ((if e < 64 then Shl(quot, e) else 0) + q) % W;
      DividedFrom(a, b, first, d, loops, 8, reg, e, v, q, Val3(y0, y1, y2));
    } else {
      t0, t1, t2, q := b0, b1, 0, first;
      assert Pow2(64) == W by { Pow2Values(); }
      DividedFrom(a, b, first, d, loops, 8, reg, e, v, 0, Val3(y0, y1, y2));
    }
  }

  method RoundNearest128(x0: Word, x1: Word, x2: Word, t0: Word, t1: Word, t2: Word, odd: bool)
    returns (y0: Word, y1: Word, y2: Word, flip: bool)
    requires Val3(x0, x1, x2) < Val3(t0, t1, t2)
    ensures var x, u := Val3(x0, x1, x2), Val3(t0, t1, t2) - Val3(x0, x1, x2);
            flip == (u < x || (u == x && odd)) && Val3(y0, y1, y2) == if flip then u else x
  {
    var u0, u1, u2 := Sub192(t0, t1, t2, x0, x1, x2);
    flip := u0 < x0 || (u0 == x0 && (u1 < x1 || (u1 == x1 && u2 < x2)))
            || (u0 == x0 && u1 == x1 && u2 == x2 && odd);
    y0, y1, y2 := if flip then u0 else x0, if flip then u1 else x1, if flip then u2 else x2;
  }

  lemma TopFits192(x0: Word, x1: Word, x2: Word, p: int, p': int)
    requires p >= 1 && p * p' == W && TWO63 <= x0 * p < W
    ensures W2 * TWO63 <= Val3(x0, x1, x2) * p < W3
  {
    var low := Val2(x1, x2);
    assert Val3(x0, x1, x2) * p == x0 * p * W2 + low * p;
    MulMono(low, W2 - 1, p);
    MulMono(0, low, p);
    if x0 >= p' { MulMono(p', x0, p); }
    MulMono(x0 + 1, p', p);
  }

  lemma WholeWords(z0: Word, z1: Word, z2: Word, y: int)
    requires Val3(z0, z1, z2) == y * W
    ensures z2 == 0 && Val2(z0, z1) == y
  {
  }

  /** The tail of frac128_modrem. */
  method Normalise128(x0: Word, x1: Word, x2: Word, bexp: int, e: nat, sign: bool, ghost rem: int) returns (r: Parts)
    requires e <= 64 && 0 <= rem < W2 && Val3(x0, x1, x2) == rem * Pow2(64 - e)
    ensures r.sign == sign && r.zero == (rem == 0)
    ensures !r.zero ==> r.exp <= bexp && r.frac == rem * Pow2(bexp - r.exp) && TWO63 * W <= r.frac < W2
  {
    hide Pow2, Clz, Shl;
    if x0 != 0 {
      var shift := Clz(x0);
      ComplementPowers(shift);
      TopFits192(x0, x1, x2, Pow2(shift), Pow2(64 - shift));
      var z0, z1, z2 := ShiftLeft192(x0, x1, x2, shift);
      NormalShift(rem, Val3(x0, x1, x2), e, shift, W2);
      WholeWords(z0, z1, z2, rem * Pow2(shift - e));
      r := Parts(false, sign, bexp + e - shift, Val2(z0, ShrJam.OrFlag(z1, z2 != 0)));
    } else if x1 != 0 {
      var shift := Clz(x1);
      ComplementPowers(shift);
      TopFits(x1, x2, Pow2(shift), Pow2(64 - shift));
      var z0, z1 := ShiftLeft128(x1, x2, shift);
      ScaledRemainder(rem, Val2(x1, x2), e, shift);
      r := Parts(false, sign, bexp + e - (shift + 64), Val2(z0, z1));
    } else if x2 != 0 {
      var shift := Clz(x2);
      NormalisedShl(x2);
      ScaledRemainder(rem, x2, e, shift);
      RaiseWord(rem, shift + 64 - e);
      r := Parts(false, sign, bexp + e - (shift + 128), Val2(Shl(x2, shift), 0));
    } else {
      r := Parts(true, sign, 0, 0);
    }
    MulMono(1, Pow2(64 - e), rem);
  }

  lemma ScaledRemainder(rem: int, v: int, e: nat, shift: nat)
    requires e <= 64 && v == rem * Pow2(64 - e)
    ensures v * Pow2(shift) == rem * Pow2(shift + 64 - e)
  {
    hide Pow2;
    Pow2Add(64 - e, shift);
    MulAssoc(rem, Pow2(64 - e), Pow2(shift));
  }

  lemma RaiseWord(rem: int, k: nat)
    ensures rem * Pow2(k) * W == rem * Pow2(k + 64)
  {
    hide Pow2;
    Pow2Add(k, 64);
    Pow2Values();
    MulAssoc(rem, Pow2(k), W);
  }

  /** frac128_modrem on normalised significands. */
  method Frac128Modrem(asign: bool, aexp: int, ahi: Word, alo: Word, bexp: int, bhi: Word, blo: Word, truncate: bool)
    returns (r: Parts, quot: Word)
    requires TWO63 <= ahi && TWO63 <= bhi
    ensures aexp - bexp < -1 ==> r == Parts(false, asign, aexp, Val2(ahi, alo)) && quot == 0
    ensures aexp - bexp >= -1 ==>
      var d := aexp - bexp;
      && IsRemainder(asign, Dividend(Val2(ahi, alo), d), Val2(bhi, blo), bexp, truncate, r)
      && (!r.zero ==> W2 / 2 <= r.frac < W2)
      && IsRegister(Val2(ahi, alo), Val2(bhi, blo), d, 61, 8, quot)
  {
    hide Pow2, RoundUp, ShrDouble, LoopSum, IsRegister;
    var d := aexp - bexp;
    if d < -1 {
      return Parts(false, asign, aexp, Val2(ahi, alo)), 0;
    }
    var x0, x1 := ahi, alo;
    ghost var a, b := Dividend(Val2(ahi, alo), d), Val2(bhi, blo);
    if d == -1 {
      FracDiv.HalfOf(ahi, alo);
      x0, x1, d := ahi / 2, ShrDouble(ahi, alo, 1), 0;
    }
    var first: Word := if bhi < x0 || (bhi == x0 && blo <= x1) then 1 else 0;
    if first == 1 {
      x0, x1 := Sub128(x0, x1, bhi, blo);
    }
    assert Pow2(0) == 1 by { PowZero(); }
    assert a == (first * b + Val2(x0, x1)) * Pow2(d);
    var y0, y1, y2, t0, t1, t2, e, q;
    ghost var loops;
    y0, y1, y2, t0, t1, t2, e, q, quot, loops := DivideOut128(x0, x1, bhi, blo, first, a, d);
    RegisterFrom(Val2(ahi, alo), b, aexp - bexp, 61, 8, loops, a / b, quot);
    ScaledRounding(a, b, Pow2(64 - e), Val3(y0, y1, y2), Val3(t0, t1, t2), q % 2 == 1);
    RemainderRange(a, b, Pow2(64 - e));
    var flip := false;
    if !truncate {
      y0, y1, y2, flip := RoundNearest128(y0, y1, y2, t0, t1, t2, q % 2 == 1);
    }
    r := Normalise128(y0, y1, y2, bexp, e, asign != flip, Remainder(a, b, truncate));
  }

  // ---- What the results mean ---------------------------------------------------------------

  /** The digit of the last pass, which ends at exponent Left(e, s). */
  function FinalPass(x: int, b: int, e: nat, s: nat): int
    requires Divisor(b, s) && e > 64
    decreases e
  {
    var q := Digit(x, b, s);
    if e - s <= 64 then q else FinalPass((x - q * b) * Pow2(s), b, e - s, s)
  }

  /** The digit of the pass before it; none, so 0, when there was only one. */
  function PriorPass(x: int, b: int, e: nat, s: nat): int
    requires Divisor(b, s) && e > 64
    decreases e
  {
    var q := Digit(x, b, s);
    if e - s <= 64 then 0
    else if e - 2 * s <= 64 then q
    else PriorPass((x - q * b) * Pow2(s), b, e - s, s)
  }

  /** The last two digits as the register holds them before its final shift. */
  function LastDigits(x: int, b: int, e: nat, s: nat): int
    requires Divisor(b, s) && e > 64
  {
    PriorPass(x, b, e, s) * Pow2(s) + FinalPass(x, b, e, s)
  }

  /** Modulo 2^64 only the last two passes count: the weights of the earlier ones are multiples of 2^64. */
  lemma {:induction false} LoopSumLow(x: int, b: int, e: nat, s: nat)
    requires Divisor(b, s) && e > 64
    ensures Left(e, s) + s > 64
    ensures LoopSum(x, b, e, s) % W == LastDigits(x, b, e, s) * Pow2(Left(e, s) + s - 64) % W
    decreases e
  {
    hide Pow2, Digit, LastDigits, LoopSum;
    LeftAbove(e, s);
    var q := Digit(x, b, s);
    var x' := (x - q * b) * Pow2(s);
    LoopSumStep(x, b, e, s, q);
    if e - 2 * s <= 64 {
      FewPasses(x, b, e, s);
    } else {
      LoopSumLow(x', b, e - s, s);
      assert LastDigits(x, b, e, s) == LastDigits(x', b, e - s, s) by { EarlierPass(x, b, e, s); }
      HighWeight(q, e);
      DivAddMul(LoopSum(x', b, e - s, s), W, q * Pow2(e - 128));
    }
  }

  lemma EarlierPass(x: int, b: int, e: nat, s: nat)
    requires Divisor(b, s) && e - 2 * s > 64
    ensures LastDigits(x, b, e, s) == LastDigits((x - Digit(x, b, s) * b) * Pow2(s), b, e - s, s)
  {
    hide Pow2, Digit;
  }

  lemma HighWeight(q: int, e: nat)
    requires e >= 128
    ensures q * Pow2(e - 64) == q * Pow2(e - 128) * W
  {
    hide Pow2;
    Pow2Add(e - 128, 64);
    Pow2Values();
    MulAssoc(q, Pow2(e - 128), W);
  }

  lemma FewPasses(x: int, b: int, e: nat, s: nat)
    requires Divisor(b, s) && e > 64 && e - 2 * s <= 64
    ensures Left(e, s) + s > 64 && LoopSum(x, b, e, s) == LastDigits(x, b, e, s) * Pow2(Left(e, s) + s - 64)
  {
    hide Pow2, Digit, LoopSum, LastDigits, FinalPass, PriorPass, Divisor;
    var q := Digit(x, b, s);
    var x' := (x - q * b) * Pow2(s);
    LoopSumStep(x, b, e, s, q);
    FewDigits(x, b, e, s);
    if e - s <= 64 {
      NoMore(x', b, e - s, s);
      assert LoopSum(x, b, e, s) == q * Pow2(e - 64);
    } else {
      LastLoopSum(x', b, e - s, s);
      TwoWeights(q, Digit(x', b, s), e, s);
    }
  }

  lemma LastLoopSum(x: int, b: int, e: nat, s: nat)
    requires Divisor(b, s) && e > 64 && e - s <= 64
    ensures LoopSum(x, b, e, s) == Digit(x, b, s) * Pow2(e - 64)
  {
    hide Pow2, Digit, LoopSum;
    var q := Digit(x, b, s);
    LoopSumStep(x, b, e, s, q);
    NoMore((x - q * b) * Pow2(s), b, e - s, s);
  }

  lemma FewDigits(x: int, b: int, e: nat, s: nat)
    requires Divisor(b, s) && e > 64 && e - 2 * s <= 64
    ensures var q := Digit(x, b, s);
            if e - s <= 64 then Left(e, s) == e - s && LastDigits(x, b, e, s) == q
            else Left(e, s) == e - 2 * s && LastDigits(x, b, e, s) == q * Pow2(s) + Digit((x - q * b) * Pow2(s), b, s)
  {
    hide Pow2, Digit;
    var q := Digit(x, b, s);
    var x' := (x - q * b) * Pow2(s);
    if e - s > 64 {
      assert FinalPass(x', b, e - s, s) == Digit(x', b, s);
      assert FinalPass(x, b, e, s) == FinalPass(x', b, e - s, s);
      assert PriorPass(x, b, e, s) == q;
    } else {
      assert 0 * Pow2(s) == 0;
    }
  }

  lemma NoMore(x: int, b: int, e: nat, s: nat)
    requires Divisor(b, s) && e <= 64
    ensures LoopSum(x, b, e, s) == 0
  {
  }

  lemma TwoWeights(q: int, q': int, e: nat, s: nat)
    requires e - s > 64
    ensures (q * Pow2(s) + q') * Pow2(e - s - 64) == q * Pow2(e - 64) + q' * Pow2(e - s - 64)
  {
    hide Pow2;
    Pow2Add(s, e - s - 64);
    MulAssoc(q, Pow2(s), Pow2(e - s - 64));
    assert (q * Pow2(s) + q') * Pow2(e - s - 64) == q * Pow2(s) * Pow2(e - s - 64) + q' * Pow2(e - s - 64);
  }

  /** So, from the operands and at every distance past 64: the register is right exactly when the last two digits fill the
      bits that are shifted out. */
  lemma RightIffLastDigits(a: int, b: int, d: nat, s: nat)
    requires Divisor(b, s) && d > 64
    ensures 64 < Left(d, s) + s <= 128
    ensures Loops(a, b, d, s) % W == 0
        <==> LastDigits((a - First(a, b) * b) * W, b, d, s) % Pow2(128 - Left(d, s) - s) == 0
  {
    hide Pow2, LoopSum, LastDigits;
    var x := (a - First(a, b) * b) * W;
    LoopSumLow(x, b, d, s);
    LowBitsShiftedOut(LastDigits(x, b, d, s), Left(d, s) + s - 64);
  }

  /** The last digit alone decides after a single pass, and wherever the digit before it is shifted out as a whole. */
  lemma RightIffFinalPass(a: int, b: int, d: nat, s: nat)
    requires Divisor(b, s) && d > 64 && (d - s <= 64 || Left(d, s) + 2 * s >= 128)
    ensures 64 < Left(d, s) + s <= 128
    ensures Loops(a, b, d, s) % W == 0
        <==> FinalPass((a - First(a, b) * b) * W, b, d, s) % Pow2(128 - Left(d, s) - s) == 0
  {
    hide Pow2, LoopSum, FinalPass, Digit;
    var x := (a - First(a, b) * b) * W;
    RightIffLastDigits(a, b, d, s);
    var p := Pow2(128 - Left(d, s) - s);
    if d - s <= 64 {
      assert 0 * Pow2(s) == 0;
    } else {
      Pow2Add(Left(d, s) + 2 * s - 128, 128 - Left(d, s) - s);
      var k := PriorPass(x, b, d, s) * Pow2(Left(d, s) + 2 * s - 128);
      assert PriorPass(x, b, d, s) * Pow2(s) == k * p by { MulAssoc(PriorPass(x, b, d, s), Pow2(Left(d, s) + 2 * s - 128), p); }
      DivAddMul(FinalPass(x, b, d, s), p, k);
    }
  }

  lemma {:induction false} LeftAbove(e: nat, s: nat)
    requires 0 < s <= 64 < e
    ensures Left(e, s) + s > 64
    decreases e
  {
    if e - s > 64 { LeftAbove(e - s, s); }
  }

  lemma LowBitsShiftedOut(q: int, k: nat)
    requires k <= 64
    ensures q * Pow2(k) % W == 0 <==> q % Pow2(64 - k) == 0
  {
    hide Pow2;
    ComplementPowers(k);
    var p, p' := Pow2(k), Pow2(64 - k);
    var m, r := q / p', q % p';
    assert q * p == m * W + r * p by {
      assert (m * p' + r) * p == m * p' * p + r * p;
      MulAssoc(m, p', p);
    }
    MulMono(0, r, p);
    MulMono(r, p' - 1, p);
    assert (p' - 1) * p == W - p;
    DivUnique(q * p, W, m, r * p);
    if r > 0 { MulMono(1, r, p); }
  }

  /** The digit before the last can decide: exponents 127 apart, a last digit that alone would do, and a wrong register. */
  lemma PriorDigitDecides()
    ensures var a, b := 0xa8f3_27f5_c403_ce6a, 0xbeae_46fe_5eda_92d9;
            && Left(127, 62) == 3 && FinalPass(a * W, b, 127, 62) % Pow2(63) == 0
            && Loops(a, b, 127, 62) % W != 0
  {
    hide Pow2, Digit, LoopSum;
    var a, b := 0xa8f3_27f5_c403_ce6a, 0xbeae_46fe_5eda_92d9;
    var q, q' := 0xe2d3_2fda_6cfc_621f, TWO63;
    SixtyTwo();
    Pow2Values();
    FirstOfTwo();
    assert FinalPass(a * W, b, 127, 62) == q' by { FewDigits(a * W, b, 127, 62); }
    LoopSumStep(a * W, b, 127, 62, q);
    LastLoopSum((a * W - q * b) * Pow2(62), b, 65, 62);
    assert Pow2(1) == 2 by { SixtyTwo(); }
    DivUnique(q * TWO63 + q' * 2, W, q / 2 + 1, TWO63);
  }

  lemma FirstOfTwo()
    ensures var a, b := 0xa8f3_27f5_c403_ce6a, 0xbeae_46fe_5eda_92d9;
            Digit(a * W, b, 62) == 0xe2d3_2fda_6cfc_621f && Digit((a * W - 0xe2d3_2fda_6cfc_621f * b) * Pow2(62), b, 62) == TWO63
  {
    hide Pow2;
    var a, b := 0xa8f3_27f5_c403_ce6a, 0xbeae_46fe_5eda_92d9;
    Pow2Values();
    DivUnique(a * W, b * H, 0xe2d3_2fda, 0x512d_8298_7e0e_1c36_0000_0000);
    DivUnique(0x512d_8298_7e0e_1c36, 0xbeae_46fe, 0x6cfc_6221, 0x2861_b978);
    DivUnique(0x5f57_237f_2f6d_496e_4000_0000_0000_0000, b * H, 0x8000_0000, 0x1_c000_0000_0000_0000);
    DivUnique(0x1_c000_0000, 0xbeae_46fe, 2, 0x42a3_7204);
  }

  /** Equal significands leave nothing for the loop: the register is right at every distance. */
  lemma {:induction false} NothingLeft(b: int, e: nat, s: nat)
    requires Divisor(b, s)
    ensures LoopSum(0, b, e, s) == 0
    decreases e
  {
    hide Pow2;
    if e > 64 {
      NothingLeft(b, e - s, s);
      assert Digit(0, b, s) == 0 by { NothingEstimated(b); NothingEstimated(b / W); }
      assert 0 * Pow2(e - 64) == 0 && (0 - 0 * b) * Pow2(s) == 0;
    }
  }

  lemma NothingEstimated(b: int)
    ensures b >= TWO63 ==> Approx(0, b) == 0
  {
    if b >= TWO63 { DivUnique(0, b * H, 0, 0); }
  }

  lemma EqualSignificands(b: int, d: int, s: nat)
    requires Divisor(b, s)
    ensures Loops(b, b, d, s) == 0
  {
    hide LoopSum;
    if d > 64 { NothingLeft(b, d, s); }
  }

  /** Three and seven times a number vanish modulo 2^64 exactly when the number does. */
  lemma TimesThreeOrSeven(n: int, loops: int)
    ensures (n + 3 * loops) % W == n % W <==> loops % W == 0
    ensures (n + 7 * loops) % W == n % W <==> loops % W == 0
  {
    SameResidue(n, 3 * loops);
    SameResidue(n, 7 * loops);
    var k, r := loops / W, loops % W;
    assert 3 * loops == 3 * r + 3 * k * W && 7 * loops == 7 * r + 7 * k * W;
    DivAddMul(3 * r, W, 3 * k);
    DivAddMul(7 * r, W, 7 * k);
    OddMultiples(r);
  }

  /** With loop digits present, the register can only be right when the quotient fits the bits left after the loop. */
  lemma LowQuotient(n: int, first: int, d: nat, loops: int, e: nat)
    requires d > 64 && e <= 64 && 0 <= n - first * Pow2(d) - loops < Pow2(e)
    ensures (n + 3 * loops) % W == n % W || (n + 7 * loops) % W == n % W ==> n % W < Pow2(e)
  {
    hide Pow2;
    TimesThreeOrSeven(n, loops);
    Pow2Mono(e, 64);
    Pow2Values();
    var k := first * Pow2(d - 64);
    assert first * Pow2(d) == k * W by { Pow2Add(d - 64, 64); MulAssoc(first, Pow2(d - 64), W); }
    if loops % W == 0 { SameLow(n, k, loops / W, n - first * Pow2(d) - loops); }
  }

  lemma SameLow(n: int, k: int, l: int, rest: int)
    requires 0 <= rest < W && n == k * W + l * W + rest
    ensures n % W == rest
  {
    assert (k + l) * W == k * W + l * W;
    DivUnique(n, W, k + l, rest);
  }

  lemma OddMultiples(r: Word)
    ensures (3 * r) % W == 0 <==> r == 0
    ensures (7 * r) % W == 0 <==> r == 0
  {
  }

  lemma SameResidue(n: int, x: int)
    ensures (n + x) % W == n % W <==> x % W == 0
  {
  }

  /** Exponents 65 apart: the register holds a quotient that is off by three times its low digits. */
  method WrongQuotient() returns (quot: Word)
    ensures quot != Dividend(TWO63 + 100, 65) / TWO63 % W
  {
    hide Pow2;
    var r;
    r, quot := Frac64Modrem(false, 65, TWO63 + 100, 0, TWO63, true);
    assert Pow2(3) == 8 by { SixtyTwo(); }
    assert Pow2(65) == 2 * W by { SixtyFive(); }
    DivUnique((TWO63 + 100) * (2 * W), TWO63, 4 * (TWO63 + 100), 0);
    assert Left(65, 62) == 3;
  }

  lemma SixtyFive()
    ensures Pow2(65) == 2 * W
  {
    Pow2Values();
  }

  /** A dividend two or more binades below the divisor is its own remainder, nearest or truncated. */
  lemma SmallDividend(frac: nat, b: nat, k: nat, truncate: bool)
    requires k >= 2 && b > 0 && frac < 2 * b
    ensures b * Pow2(k) > 0 && Remainder(frac, b * Pow2(k), truncate) == frac
  {
    hide Pow2;
    assert Pow2(k) >= 4 by { Pow2Mono(2, k); assert Pow2(2) == 4 by { SixtyTwo(); } }
    MulMono(4, Pow2(k), b);
    DivUnique(frac, b * Pow2(k), 0, frac);
  }

  /** One binade below: halving the dividend gives the remainder exactly when its low bit is clear, and then its sign. */
  lemma HalvedDividend(frac: nat, b: nat, truncate: bool)
    requires b > 0
    ensures Remainder(frac, 2 * b, truncate) == 2 * Remainder(frac / 2, b, truncate) <==> frac % 2 == 0
    ensures frac % 2 == 0 ==> (RoundUp(frac, 2 * b) <==> RoundUp(frac / 2, b))
  {
    var q, r := (frac / 2) / b, (frac / 2) % b;
    assert frac / 2 == q * b + r;
    MulAssoc(q, 2, b);
    DivUnique(frac, 2 * b, q, 2 * r + frac % 2);
  }
}
