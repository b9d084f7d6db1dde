/**
 What packing does to the signed value, overflow included: each rounding mode is told by the order of the numbers of the
 format, infinities among them.
 */
module SignedRounding {
  import opened Words
  import opened Wide
  import opened Rounding
  import opened RoundPack
  import opened CorrectRounding

  datatype Number = MinusInfinity | Finite(v: int) | PlusInfinity

  predicate AtMost(a: Number, b: Number) {
    a.MinusInfinity? || b.PlusInfinity? || (a.Finite? && b.Finite? && a.v <= b.v)
  }

  function Signed(sign: bool, m: int): int { if sign then -m else m }

  /** The value of y, in the units of an input with exponent exp. */
  function Value(y: Floatx80, exp: int): Number {
    if y.exp <= MAX_EXP then Finite(Signed(y.sign, Scaled(y, exp))) else if y.sign then MinusInfinity else PlusInfinity
  }

  /** Numbers of the format: what fits its significand, and the infinities. */
  predicate OfFormat(p: Precision, y: Floatx80) { Representable(p, y) || (y.exp == 0x7FFF && y.sig % TWO63 == 0) }

  /** The largest finite number of the format, and the distance to the number that would follow it. */
  function Largest(p: Precision, exp: int): int { Scaled(MaxFinite(p, false), exp) }

  function Gap(p: Precision, exp: int): int { Pow2(64 - Bits(p)) * Pow2(MAX_EXP) * (W * Pow2(Depth(exp))) }

  /** z is the right answer for the exact value x, judged against the number y: the directed modes by order alone; the
      nearest ones by distance, with ties to an even significand or away from zero, and infinity from halfway past the
      largest number on. */
  ghost predicate Right(p: Precision, mode: Mode, exp: int, x: int, z: Floatx80, y: Floatx80) {
    var v, u := Value(z, exp), Value(y, exp);
    match mode
    case Up => AtMost(Finite(x), v) && (AtMost(Finite(x), u) ==> AtMost(v, u))
    case Down => AtMost(v, Finite(x)) && (AtMost(u, Finite(x)) ==> AtMost(u, v))
    case ToZero => v.Finite? && Abs(v.v) <= Abs(x) && (u.Finite? && Abs(u.v) <= Abs(x) ==> Abs(u.v) <= Abs(v.v))
    case NearestEven => Nearest(p, exp, x, v, u, z.sig / Pow2(64 - Bits(p)) % 2 == 0)
    case TiesAway => Nearest(p, exp, x, v, u, v.Finite? && Abs(x) < Abs(v.v))
  }

  ghost predicate Nearest(p: Precision, exp: int, x: int, v: Number, u: Number, winsTies: bool) {
    && (v.Finite? <==> 2 * Abs(x) < 2 * Largest(p, exp) + Gap(p, exp))
    && (v.Finite? && u.Finite? ==> Nearer(x, v.v, u.v, winsTies))
  }

  ghost predicate Nearer(x: int, v: int, u: int, winsTies: bool) {
    Abs(v - x) <= Abs(u - x) && (Abs(v - x) == Abs(u - x) && u != v ==> winsTies)
  }

  // ---- No overflow ---------------------------------------------------------------------------

  /** From magnitudes to signed values. */
  lemma SignsOf(mode: Mode, sign: bool, x: int, r: int, even: bool, y: int, negative: bool)
    requires 0 <= x && 0 <= r && 0 <= y && Better(mode, sign, x, r, even, y) && Better(mode, sign, x, r, even, 0)
    ensures var e, v, u := Signed(sign, x), Signed(sign, r), Signed(negative, y);
            match mode
            case Up => e <= v && (e <= u ==> v <= u)
            case Down => v <= e && (u <= e ==> u <= v)
            case ToZero => Abs(v) <= Abs(e) && (Abs(u) <= Abs(e) ==> Abs(u) <= Abs(v))
            case NearestEven => Nearer(e, v, u, even)
            case TiesAway => Nearer(e, v, u, Abs(e) < Abs(v))
  {
  }

  lemma NotNegative(y: Floatx80, exp: int)
    ensures 0 <= Scaled(y, exp)
  {
    hide Pow2;
    MulMono(0, y.sig, Pow2(Weight(y.exp)));
    MulMono(0, y.sig * Pow2(Weight(y.exp)), W * Pow2(Depth(exp)));
  }

  /** The last bit kept of the significand tells whether the count of quanta is even. */
  lemma EvenQuanta(p: Precision, mode: Mode, sign: bool, exp: int, s: int, z: Floatx80)
    requires 0 <= s < W2 && Holds(z, sign, exp, Quanta(p, mode, sign, exp, s) * Unit(p))
    ensures z.sig / Pow2(64 - Bits(p)) % 2 == 0 <==> Quanta(p, mode, sign, exp, s) % 2 == 0
  {
    hide Rounded, HalfQuantum, Pow2;
    UnitPower(p);
    PowZero();
    var u, n := Unit(p), Quanta(p, mode, sign, exp, s);
    var k := Weight(z.exp) - Weight(exp);
    AtMostTop(p, mode, sign, Depth(exp), s);
    if k == 0 {
      DivUnique(z.sig, u, n, 0);
    } else {
      assert Pow2(1) == 2 by { FirstPower(); }
      Pow2Mono(1, k);
      MulMono(2, Pow2(k), z.sig);
      assert z.sig == TWO63;
      HalfTop(p);
      assert n * u == W by {
        assert TWO63 * Pow2(k) <= W;
        assert Pow2(k) == 2;
      }
      SameFactor(n, W / u, u);
    }
  }

  lemma HalfTop(p: Precision)
    ensures TWO63 / Unit(p) % 2 == 0 || p == Extended
    ensures W / Unit(p) % 2 == 0 && W / Unit(p) * Unit(p) == W && TWO63 / Unit(p) % 2 == 0
  {
  }

  lemma SameFactor(n: int, m: int, u: int)
    requires u > 0 && n * u == m * u
    ensures n == m
  {
    if n < m { MulMono(n + 1, m, u); }
    if m < n { MulMono(m + 1, n, u); }
  }

  lemma AgainstFinite(p: Precision, mode: Mode, sign: bool, exp: int, s: int, z: Floatx80, y: Floatx80)
    requires 0 <= s < W2 && (exp >= 1 ==> s >= W2 / 2) && Representable(p, y) && !Overflows(p, mode, sign, exp, s)
    requires Holds(z, sign, exp, Quanta(p, mode, sign, exp, s) * Unit(p))
    ensures Right(p, mode, exp, Signed(sign, s * Pow2(Weight(exp))), z, y)
    ensures Representable(p, z)
  {
    hide Rounded, HalfQuantum, Scaled, Better, Pow2, Quanta, Holds, Largest, Gap, Overflows, Nearer, Abs, Signed, Unit, Bits, Weight;
    var x, even := s * Pow2(Weight(exp)), Quanta(p, mode, sign, exp, s) % 2 == 0;
    MulMono(0, s, Pow2(Weight(exp)));
    CorrectlyRounded(p, mode, sign, exp, s, z, y);
    AgainstZero(p, mode, sign, exp, s, z);
    EvenQuanta(p, mode, sign, exp, s, z);
    if mode == NearestEven || mode == TiesAway { BelowMidway(p, mode, sign, exp, s); }
    AbsSigned(sign, x);
    NotNegative(z, exp);
    NotNegative(y, exp);
    assert z.sign == sign by { HeldSign(z, sign, exp, Quanta(p, mode, sign, exp, s) * Unit(p)); }
    SignsOf(mode, sign, x, Scaled(z, exp), even, Scaled(y, exp), y.sign);
  }

  lemma AgainstZero(p: Precision, mode: Mode, sign: bool, exp: int, s: int, z: Floatx80)
    requires 0 <= s < W2 && (exp >= 1 ==> s >= W2 / 2) && Holds(z, sign, exp, Quanta(p, mode, sign, exp, s) * Unit(p))
    ensures Better(mode, sign, s * Pow2(Weight(exp)), Scaled(z, exp), Quanta(p, mode, sign, exp, s) % 2 == 0, 0)
  {
    hide Scaled, Better, Pow2, Quanta, Holds, Unit, Bits;
    ZeroScaled(exp);
    ZeroFits(p);
    CorrectlyRounded(p, mode, sign, exp, s, z, Floatx80(false, 0, 0));
  }

  lemma ZeroFits(p: Precision)
    ensures Representable(p, Floatx80(false, 0, 0))
  {
    UnitPower(p);
  }

  lemma HeldSign(z: Floatx80, sign: bool, exp: int, units: int)
    requires Holds(z, sign, exp, units)
    ensures z.sign == sign && z.exp <= MAX_EXP
  {
  }

  lemma FiniteRight(p: Precision, mode: Mode, sign: bool, exp: int, s: int, z: Floatx80, y: Floatx80)
    requires 0 <= s < W2 && (exp >= 1 ==> s >= W2 / 2) && OfFormat(p, y) && !Overflows(p, mode, sign, exp, s)
    requires Holds(z, sign, exp, Quanta(p, mode, sign, exp, s) * Unit(p))
    ensures Right(p, mode, exp, Signed(sign, s * Pow2(Weight(exp))), z, y)
    ensures Representable(p, z)
  {
    hide Scaled, Pow2, Quanta, Holds, Largest, Gap, Overflows, Nearer, Abs, Signed, Unit, Bits;
    if Representable(p, y) {
      AgainstFinite(p, mode, sign, exp, s, z, y);
    } else {
      ZeroFits(p);
      AgainstFinite(p, mode, sign, exp, s, z, Floatx80(false, 0, 0));
    }
  }

  lemma AbsSigned(sign: bool, x: int)
    requires x >= 0
    ensures Abs(Signed(sign, x)) == x
  {
  }

  lemma ZeroScaled(exp: int)
    ensures Scaled(Floatx80(false, 0, 0), exp) == 0
  {
    hide Pow2;
  }

  // ---- The top of the format --------------------------------------------------------------------

  /** Largest and gap at an exponent: whole quanta of the top binade. */
  lemma TopValues(p: Precision, exp: int)
    ensures var t := Pow2(MAX_EXP) * Pow2(Depth(exp));
            Largest(p, exp) == (W2 - W * Unit(p)) * t && Gap(p, exp) == W * Unit(p) * t
  {
    hide Pow2;
    UnitPower(p);
    var a, b, u := Pow2(MAX_EXP), Pow2(Depth(exp)), Unit(p);
    TopProduct(W - u, a, b);
    TopProduct(u, a, b);
    assert (W - u) * W == W2 - W * u;
  }

  lemma TopProduct(m: int, a: int, b: int)
    ensures m * a * (W * b) == m * W * (a * b)
  {
    MulAssoc(m * a, W, b);
    MulAssoc(m, a, W);
    MulAssoc(m * W, a, b);
    assert a * W == W * a;
    MulAssoc(m, W, a);
  }

  /** No number of the format is above the largest. */
  lemma LargestIsLargest(p: Precision, y: Floatx80, exp: int)
    requires Representable(p, y)
    ensures Scaled(y, exp) <= Largest(p, exp)
  {
    hide Pow2;
    UnitPower(p);
    var u := Unit(p);
    assert y.sig <= W - u by { WholeBelow(y.sig, p); }
    Pow2Mono(Weight(y.exp), MAX_EXP);
    MulMono(Pow2(Weight(y.exp)), Pow2(MAX_EXP), y.sig);
    MulMono(y.sig, W - u, Pow2(MAX_EXP));
    MulMono(y.sig * Pow2(Weight(y.exp)), (W - u) * Pow2(MAX_EXP), W * Pow2(Depth(exp)));
  }

  lemma WholeBelow(x: Word, p: Precision)
    requires x % Unit(p) == 0
    ensures x <= W - Unit(p)
  {
  }

  /** An input that overflows lies at the largest number or above, past it if rounded away, past the middle if to nearest. */
  lemma OverflowRange(p: Precision, mode: Mode, sign: bool, exp: int, s: int)
    requires 0 <= s < W2 && s >= W2 / 2 && exp >= 1 && Overflows(p, mode, sign, exp, s)
    ensures var x, m, g := s * Pow2(exp), Largest(p, exp), Gap(p, exp);
            && m <= x && (RoundsAway(mode, sign) ==> m < x) && (Truncates(mode, sign) ==> m + g <= x)
            && (mode == NearestEven || mode == TiesAway ==> 2 * x >= 2 * m + g)
  {
    hide Pow2, Rounded, HalfQuantum, Largest, Gap, Unit, Truncates, RoundsAway;
    var q, t := W * Unit(p), Pow2(MAX_EXP);
    TopValues(p, exp);
    PowZero();
    if exp > MAX_EXP {
      Pow2Mono(MAX_EXP + 1, exp);
      MulMono(Pow2(MAX_EXP + 1), Pow2(exp), s);
      NextPower(MAX_EXP);
      MulMono(W2 / 2, s, 2 * t);
      UnitRange(p);
      FarAbove(q, t);
    } else {
      TopQuanta(p, mode, sign, s);
      AtTop(mode, sign, s, q, t);
    }
  }

  lemma NextPower(k: nat)
    ensures Pow2(k + 1) == 2 * Pow2(k)
  {
  }

  lemma FarAbove(q: int, t: int)
    requires 0 < q && t >= 1
    ensures (W2 - q) * t + q * t <= W2 / 2 * (2 * t) && (W2 - q) * t < W2 / 2 * (2 * t) && 2 * (W2 / 2 * (2 * t)) >= 2 * ((W2 - q) * t) + q * t
  {
    MulMono(1, t, q);
    MulMono(0, q, t);
    assert (W2 - q) * t == W2 * t - q * t && W2 / 2 * (2 * t) == W2 * t;
  }

  /** Rounded up to the top in the last binade. */
  lemma TopQuanta(p: Precision, mode: Mode, sign: bool, s: int)
    requires 0 <= s < W2 && Rounded(mode, sign, s, HalfQuantum(p, 0)) * Unit(p) == W
    ensures var q := W * Unit(p);
            && W2 - q <= s && (RoundsAway(mode, sign) ==> W2 - q < s) && !Truncates(mode, sign)
            && (mode == NearestEven || mode == TiesAway ==> 2 * s >= 2 * (W2 - q) + q)
  {
    hide Rounded, HalfQuantum, Pow2;
    var h, u := HalfQuantum(p, 0), Unit(p);
    var q, n := W * u, Rounded(mode, sign, s, h);
    assert 2 * h == q by {
      HalfValue(p, 0);
      PowZero();
    }
    RoundedIsRounded(mode, sign, s, h);
    assert n * q == W2 by {
      MulAssoc(n, W, u);
      MulAssoc(W, n, u);
    }
  }

  lemma AtTop(mode: Mode, sign: bool, s: int, q: int, t: int)
    requires t >= 1 && W2 - q <= s
    ensures (W2 - q) * t <= s * t && (W2 - q < s ==> (W2 - q) * t < s * t)
    ensures 2 * s >= 2 * (W2 - q) + q ==> 2 * (s * t) >= 2 * ((W2 - q) * t) + q * t
  {
    MulMono(W2 - q, s, t);
    if W2 - q < s { MulMono(W2 - q + 1, s, t); }
    if 2 * s >= 2 * (W2 - q) + q {
      MulMono(2 * (W2 - q) + q, 2 * s, t);
      assert (2 * (W2 - q) + q) * t == 2 * ((W2 - q) * t) + q * t && 2 * s * t == 2 * (s * t);
    }
  }

  /** To nearest, an input that does not overflow lies below the middle. */
  lemma BelowMidway(p: Precision, mode: Mode, sign: bool, exp: int, s: int)
    requires 0 <= s < W2 && (mode == NearestEven || mode == TiesAway) && !Overflows(p, mode, sign, exp, s)
    ensures 2 * (s * Pow2(Weight(exp))) < 2 * Largest(p, exp) + Gap(p, exp)
  {
    hide Pow2, Rounded, HalfQuantum, Largest, Gap, Unit;
    var q, b := W * Unit(p), Pow2(Depth(exp));
    TopValues(p, exp);
    PowZero();
    if exp == MAX_EXP {
      BelowTopQuanta(p, mode, sign, s);
      var t := Pow2(MAX_EXP);
      MulMono(2 * s + 1, 2 * (W2 - q) + q, t);
      assert (2 * (W2 - q) + q) * t == 2 * ((W2 - q) * t) + q * t && (2 * s + 1) * t == 2 * (s * t) + t;
    } else {
      Pow2Mono(Weight(exp), MAX_EXP - 1);
      NextPower(MAX_EXP - 1);
      var t, w := Pow2(MAX_EXP - 1), Pow2(Weight(exp));
      MulMono(w, t, s);
      MulMono(s + 1, W2, t);
      MulMono(1, b, 2 * t);
      UnitRange(p);
      LowBinade(s, w, t, q, b);
    }
  }

  lemma UnitRange(p: Precision)
    ensures 1 <= Unit(p) && W * Unit(p) <= W2 / 2
  {
  }

  lemma LowBinade(s: int, w: int, t: int, q: int, b: int)
    requires t >= 1 && b >= 1 && 0 < q <= W2 / 2 && s * w < W2 * t
    ensures 2 * (s * w) < 2 * ((W2 - q) * (2 * t * b)) + q * (2 * t * b)
  {
    var c := 2 * t * b;
    assert c >= 2 * t by { MulMono(1, b, 2 * t); }
    assert (W2 - q) * c >= W2 / 2 * c by { MulMono(W2 / 2, W2 - q, c); }
    assert W2 / 2 * c >= W2 / 2 * (2 * t) by { MulMono(2 * t, c, W2 / 2); }
    MulMono(0, q, c);
    assert W2 / 2 * (2 * t) == W2 * t;
  }

  lemma BelowTopQuanta(p: Precision, mode: Mode, sign: bool, s: int)
    requires 0 <= s < W2 && (mode == NearestEven || mode == TiesAway) && Rounded(mode, sign, s, HalfQuantum(p, 0)) * Unit(p) != W
    ensures 2 * s < 2 * (W2 - W * Unit(p)) + W * Unit(p)
  {
    hide Rounded, HalfQuantum, Pow2;
    var h, u := HalfQuantum(p, 0), Unit(p);
    var q, n, m := W * u, Rounded(mode, sign, s, h), W / u;
    assert 2 * h == q by {
      HalfValue(p, 0);
      PowZero();
    }
    RoundedIsRounded(mode, sign, s, h);
    AtMostTop(p, mode, sign, 0, s);
    QuantaBelowTop(p, n);
  }

  // ---- Every outcome -------------------------------------------------------------------------------

  /** For every precision, mode, sign and exponent: what is packed, finite or not, is the right number of the format. */
  lemma SignedCorrect(p: Precision, mode: Mode, flush: bool, intBitZero: bool, sign: bool, exp: int, s: int, z: Floatx80, y: Floatx80)
    requires 0 <= s < W2 && (exp >= 1 ==> s >= W2 / 2) && OfFormat(p, y) && (p == Extended || exp >= 1 || !flush)
    requires Outcome(p, mode, flush, intBitZero, sign, exp, s, z)
    ensures z.sign == sign && OfFormat(p, z)
    ensures Right(p, mode, exp, Signed(sign, s * Pow2(Weight(exp))), z, y)
  {
    hide Scaled, Right, Pow2, Quanta, Overflows, Unit, Bits;
    if Overflows(p, mode, sign, exp, s) {
      OverflowRight(p, mode, intBitZero, sign, exp, s, z, y);
    } else {
      FiniteRight(p, mode, sign, exp, s, z, y);
    }
  }

  lemma OverflowRight(p: Precision, mode: Mode, intBitZero: bool, sign: bool, exp: int, s: int, z: Floatx80, y: Floatx80)
    requires 0 <= s < W2 && (exp >= 1 ==> s >= W2 / 2) && OfFormat(p, y) && Overflows(p, mode, sign, exp, s)
    requires z == if Truncates(mode, sign) then MaxFinite(p, sign) else Infinity(sign, intBitZero)
    ensures OfFormat(p, z)
    ensures Right(p, mode, exp, Signed(sign, s * Pow2(Weight(exp))), z, y)
  {
    hide Scaled, Pow2, Gap, Quanta;
    var x, m := s * Pow2(Weight(exp)), Largest(p, exp);
    OverflowRange(p, mode, sign, exp, s);
    NotNegative(MaxFinite(p, false), exp);
    assert Scaled(MaxFinite(p, sign), exp) == m by { SignFree(p, sign, exp); }
    assert Representable(p, MaxFinite(p, sign)) by {
      UnitPower(p);
      TopWhole(p);
    }
    if Representable(p, y) {
      NotNegative(y, exp);
      LargestIsLargest(p, y, exp);
    }
  }

  // ---- Flags -----------------------------------------------------------------------------------------

  /** The smallest normal number. */
  function Normal(exp: int): int { Scaled(Floatx80(false, 1, TWO63), exp) }

  /** Inexact: what was packed is not the exact value. */
  lemma InexactMeans(p: Precision, mode: Mode, before: bool, flush: bool, intBitZero: bool, sign: bool, exp: int, s: int, z: Floatx80)
    requires 0 <= s < W2 && (exp >= 1 ==> s >= W2 / 2) && (p == Extended || exp >= 1 || !flush)
    requires Outcome(p, mode, flush, intBitZero, sign, exp, s, z)
    ensures Inexact in Raised(p, mode, before, flush, sign, exp, s) <==> Value(z, exp) != Finite(Signed(sign, s * Pow2(Weight(exp))))
  {
    hide Scaled, Pow2, Quanta, Holds, Exact, Overflows, Unit, Bits, Largest, Gap, Tiny;
    if Overflows(p, mode, sign, exp, s) {
      OverflowRange(p, mode, sign, exp, s) by { OverflowExp(p, mode, sign, exp, s); }
      SignFree(p, sign, exp);
      GapPositive(p, exp);
      OverflowExp(p, mode, sign, exp, s);
    } else {
      ZeroFits(p);
      HeldSign(z, sign, exp, Quanta(p, mode, sign, exp, s) * Unit(p));
      ExactIffRepresentable(p, mode, sign, exp, s, z, Floatx80(false, 0, 0));
    }
  }

  lemma OverflowExp(p: Precision, mode: Mode, sign: bool, exp: int, s: int)
    requires Overflows(p, mode, sign, exp, s)
    ensures exp >= 1
  {
  }

  lemma GapPositive(p: Precision, exp: int)
    ensures Gap(p, exp) >= 1
  {
    hide Pow2;
    var a, b, c := Pow2(64 - Bits(p)), Pow2(MAX_EXP), W * Pow2(Depth(exp));
    MulMono(1, a, b);
    MulMono(1, a * b, c);
  }

  /** Overflow: rounded away past the largest number, halfway past it to nearest, or a whole gap past it toward zero. */
  lemma OverflowMeans(p: Precision, mode: Mode, before: bool, flush: bool, sign: bool, exp: int, s: int)
    requires 0 <= s < W2 && (exp >= 1 ==> s >= W2 / 2)
    ensures var x, m, g := s * Pow2(Weight(exp)), Largest(p, exp), Gap(p, exp);
            Overflow in Raised(p, mode, before, flush, sign, exp, s) <==>
              match mode
              case Up => if sign then x >= m + g else x > m
              case Down => if sign then x > m else x >= m + g
              case ToZero => x >= m + g
              case _ => 2 * x >= 2 * m + g
  {
    hide Scaled, Pow2, Quanta, Exact, Overflows, Unit, Bits, Largest, Gap, Tiny;
    if Overflows(p, mode, sign, exp, s) {
      OverflowRange(p, mode, sign, exp, s) by { OverflowExp(p, mode, sign, exp, s); }
      OverflowExp(p, mode, sign, exp, s);
    } else {
      if mode == NearestEven || mode == TiesAway { BelowMidway(p, mode, sign, exp, s); } else { BelowLargest(p, mode, sign, exp, s); }
    }
  }

  lemma BelowLargest(p: Precision, mode: Mode, sign: bool, exp: int, s: int)
    requires 0 <= s < W2 && (Truncates(mode, sign) || RoundsAway(mode, sign)) && !Overflows(p, mode, sign, exp, s)
    ensures var x, m, g := s * Pow2(Weight(exp)), Largest(p, exp), Gap(p, exp);
            x < m + g && (RoundsAway(mode, sign) ==> x <= m)
  {
    hide Pow2, Rounded, HalfQuantum, Largest, Gap, Unit, Truncates, RoundsAway;
    var q, b := W * Unit(p), Pow2(Depth(exp));
    TopValues(p, exp);
    PowZero();
    if exp == MAX_EXP {
      var t := Pow2(MAX_EXP);
      MulMono(s + 1, W2, t);
      assert (W2 - q) * t + q * t == W2 * t && (s + 1) * t == s * t + t;
      if RoundsAway(mode, sign) {
        AwayBelowTop(p, mode, sign, s);
        MulMono(s, W2 - q, t);
      }
    } else {
      Pow2Mono(Weight(exp), MAX_EXP - 1);
      NextPower(MAX_EXP - 1);
      var t, w := Pow2(MAX_EXP - 1), Pow2(Weight(exp));
      MulMono(w, t, s);
      MulMono(s + 1, W2, t);
      UnitRange(p);
      UnderTop(s, w, t, q, b);
    }
  }

  lemma UnderTop(s: int, w: int, t: int, q: int, b: int)
    requires t >= 1 && b >= 1 && 0 < q <= W2 / 2 && s * w < W2 * t
    ensures s * w < (W2 - q) * (2 * t * b) && s * w < (W2 - q) * (2 * t * b) + q * (2 * t * b)
  {
    var c := 2 * t * b;
    assert c >= 2 * t by { MulMono(1, b, 2 * t); }
    assert (W2 - q) * c >= W2 / 2 * c by { MulMono(W2 / 2, W2 - q, c); }
    assert W2 / 2 * c >= W2 / 2 * (2 * t) by { MulMono(2 * t, c, W2 / 2); }
    MulMono(0, q, c);
    assert W2 / 2 * (2 * t) == W2 * t;
  }

  lemma AwayBelowTop(p: Precision, mode: Mode, sign: bool, s: int)
    requires 0 <= s < W2 && RoundsAway(mode, sign) && Rounded(mode, sign, s, HalfQuantum(p, 0)) * Unit(p) != W
    ensures s <= W2 - W * Unit(p)
  {
    hide Rounded, HalfQuantum, Pow2;
    var h, u := HalfQuantum(p, 0), Unit(p);
    var n := Rounded(mode, sign, s, h);
    assert 2 * h == W * u by {
      HalfValue(p, 0);
      PowZero();
    }
    RoundedIsRounded(mode, sign, s, h);
    AtMostTop(p, mode, sign, 0, s);
    QuantaBelowTop(p, n);
  }

  /** Less than a full significand of quanta. */
  lemma QuantaBelowTop(p: Precision, n: int)
    requires n * Unit(p) <= W && n * Unit(p) != W
    ensures var q, m := W * Unit(p), W / Unit(p); n <= m - 1 && n * q <= W2 - q && (n < m - 1 ==> n * q <= W2 - 2 * q) && m % 2 == 0
  {
    var u, m := Unit(p), W / Unit(p);
    var q := W * u;
    HalfTop(p);
    assert n <= m - 1 by { if n >= m { MulMono(m, n, u); } }
    MulMono(n, m - 1, q);
    assert (m - 1) * q == W2 - q by {
      MulAssoc(m, u, W);
      assert m * q == W2;
    }
    if n < m - 1 {
      MulMono(n, m - 2, q);
      assert (m - 2) * q == W2 - 2 * q;
    }
  }

  /** Underflow, with tininess before rounding: inexact, and below the smallest normal number. */
  lemma UnderflowMeans(p: Precision, mode: Mode, flush: bool, sign: bool, exp: int, s: int)
    requires 0 <= s < W2 && (exp >= 1 ==> s >= W2 / 2) && (p == Extended || exp >= 1 || !flush)
    ensures var raised := Raised(p, mode, true, flush, sign, exp, s);
            Underflow in raised <==> Inexact in raised && s * Pow2(Weight(exp)) < Normal(exp)
  {
    hide Scaled, Pow2, Quanta, Exact, Unit, Normal;
    NormalRange(exp, s);
  }

  lemma NormalRange(exp: int, s: int)
    requires 0 <= s < W2 && (exp >= 1 ==> s >= W2 / 2)
    ensures s * Pow2(Weight(exp)) < Normal(exp) <==> exp <= 0
  {
    hide Pow2;
    PowZero();
    assert Pow2(1) == 2 by { FirstPower(); }
    var b := Pow2(Depth(exp));
    assert Normal(exp) == W2 * b;
    if exp >= 1 {
      Pow2Mono(1, exp);
      MulMono(2, Pow2(exp), s);
    } else {
      Pow2Mono(1, Depth(exp));
      MulMono(2, b, W2);
    }
  }

  lemma SignFree(p: Precision, sign: bool, exp: int)
    ensures Scaled(MaxFinite(p, sign), exp) == Largest(p, exp)
  {
    hide Pow2;
  }

  lemma TopWhole(p: Precision)
    ensures (W - Unit(p)) % Unit(p) == 0
  {
  }
}
