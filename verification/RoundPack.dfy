/**
 roundAndPackFloatx80: rounding a 128-bit significand to one of three precisions and packing it
 as an extended double, with overflow, underflow and inexact.
 */
module RoundPack {
  import opened Words
  import opened Wide
  import opened ShrJam
  import opened Rounding

  datatype Precision = Single | Double | Extended

  datatype Flag = Overflow | Underflow | Inexact | OutputDenormalFlushed

  datatype Floatx80 = Floatx80(sign: bool, exp: nat, sig: Word)

  const MAX_EXP: int := 0x7FFE

  /** float_status: the modes read and the flags raised. */
  class Status {
    var mode: Mode
    var tininessBefore: bool
    var flushToZero: bool
    var infIntBitZero: bool
    var flags: set<Flag>

    constructor (mode: Mode, tininessBefore: bool, flushToZero: bool, infIntBitZero: bool)
      ensures this.mode == mode && this.tininessBefore == tininessBefore
      ensures this.flushToZero == flushToZero && this.infIntBitZero == infIntBitZero && flags == {}
    {
      this.mode, this.tininessBefore := mode, tininessBefore;
      this.flushToZero, this.infIntBitZero, flags := flushToZero, infIntBitZero, {};
    }

    method Raise(f: set<Flag>)
      modifies this`flags
      ensures flags == old(flags) + f
    {
      flags := flags + f;
    }
  }

  // ---- What the result must be ---------------------------------------------------------------

  /** The unit in the last place of the 64-bit significand: roundMask + 1. */
  function Unit(p: Precision): int {
    match p
    case Single => 0x100_0000_0000
    case Double => 0x800
    case Extended => 1
  }

  /** How far below the smallest normal exponent the input lies. */
  function Depth(exp: int): nat { if exp >= 1 then 0 else 1 - exp }

  /** Half the quantum of the result, in units of the 128-bit significand shifted right by c. */
  function HalfQuantum(p: Precision, c: nat): (h: int)
    ensures h > 0
  {
    MulMono(1, Pow2(c), TWO63 * Unit(p));
    TWO63 * Unit(p) * Pow2(c)
  }

  /** The rounded significand as a count of units. */
  function Quanta(p: Precision, mode: Mode, sign: bool, exp: int, s: int): int {
    Rounded(mode, sign, s, HalfQuantum(p, Depth(exp)))
  }

  predicate Exact(p: Precision, exp: int, s: int) { s % (2 * HalfQuantum(p, Depth(exp))) == 0 }

  /** Rounded as if the exponent had no upper bound, the value needs an exponent above the largest. */
  predicate Overflows(p: Precision, mode: Mode, sign: bool, exp: int, s: int) {
    exp > MAX_EXP || (exp == MAX_EXP && Quanta(p, mode, sign, exp, s) * Unit(p) == W)
  }

  /** Below the smallest normal before rounding, or after rounding as if the exponent had no lower bound. */
  predicate Tiny(before: bool, p: Precision, mode: Mode, sign: bool, exp: int, s: int) {
    exp <= 0 && (before || exp < 0 || Rounded(mode, sign, s, HalfQuantum(p, 0)) * Unit(p) != W)
  }

  function MaxFinite(p: Precision, sign: bool): Floatx80 { Floatx80(sign, MAX_EXP, W - Unit(p)) }

  function Infinity(sign: bool, intBitZero: bool): Floatx80 { Floatx80(sign, 0x7FFF, if intBitZero then 0 else TWO63) }

  /** Exponent 0 weighs as much as exponent 1. */
  function Weight(exp: int): nat { if exp >= 1 then exp else 1 }

  /** z holds n units at the weight of exponent exp. */
  ghost predicate Holds(z: Floatx80, sign: bool, exp: int, units: int) {
    && z.sign == sign
    && z.exp <= MAX_EXP && (z.exp == 0 <==> z.sig < TWO63)
    && Weight(exp) <= Weight(z.exp)
    && z.sig * Pow2(Weight(z.exp) - Weight(exp)) == units
  }

  function RoundingFlags(p: Precision, tiny: bool, exp: int, s: int): set<Flag> {
    if Exact(p, exp, s) then {} else if tiny then {Inexact, Underflow} else {Inexact}
  }

  // ---- Rounding by adding an increment and masking --------------------------------------------

  function Increment(mode: Mode, sign: bool, unit: int): int {
    match mode
    case NearestEven => unit / 2
    case TiesAway => unit / 2
    case ToZero => 0
    case Up => if sign then 0 else unit - 1
    case Down => if sign then unit - 1 else 0
  }

  /** Clearing the low bits; one more of them on a tie to even. */
  function Masked(mode: Mode, x: int, bits: int, unit: int): int
    requires unit > 0
  {
    if mode == NearestEven && 2 * bits == unit then x - x % (2 * unit) else x - x % unit
  }

  lemma HalfCount(x: int, u: int, f: int, bits: int)
    requires u > 0 && u % 2 == 0 && x == f * u + bits && 0 <= bits < u
    ensures x / (u / 2) == if 2 * bits >= u then 2 * f + 1 else 2 * f
    ensures (x % (u / 2) == 0) == (bits == 0 || 2 * bits == u)
  {
    var h := u / 2;
    assert f * u == 2 * f * h by { MulAssoc(f, 2, h); }
    var k := if bits >= h then 2 * f + 1 else 2 * f;
    assert (2 * f + 1) * h == 2 * f * h + h;
    DivUnique(x, h, k, x - k * h);
  }

  /** The rounding in terms of the kept part f and the dropped bits. */
  lemma RoundedFrom(mode: Mode, sign: bool, x: int, u: int, f: int, bits: int)
    requires u > 0 && u % 4 == 0 && x == f * u + bits && 0 <= bits < u
    ensures Rounded(mode, sign, x, u / 2) ==
            if Truncates(mode, sign) then f
            else if RoundsAway(mode, sign) then if bits == 0 then f else f + 1
            else if 2 * bits < u then f
            else if 2 * bits == u && mode == NearestEven && f % 2 == 0 then f
            else f + 1
  {
    HalfCount(x, u, f, bits);
  }

  lemma MaskedFrom(mode: Mode, sign: bool, u: int, f: int, bits: int)
    requires u > 0 && u % 4 == 0 && 0 <= bits < u && !(mode == NearestEven && 2 * bits == u)
    ensures Masked(mode, f * u + bits + Increment(mode, sign, u), bits, u)
         == (if bits + Increment(mode, sign, u) < u then f else f + 1) * u
  {
    var inc := Increment(mode, sign, u);
    var y := f * u + bits + inc;
    assert (f + 1) * u == f * u + u;
    if bits + inc < u {
      DivUnique(y, u, f, bits + inc);
    } else {
      DivUnique(y, u, f + 1, bits + inc - u);
    }
  }

  lemma IncrementAndMask(mode: Mode, sign: bool, x: int, u: int)
    requires u > 0 && u % 4 == 0
    ensures Masked(mode, x + Increment(mode, sign, u), x % u, u) == Rounded(mode, sign, x, u / 2) * u
  {
    hide Rounded, Masked;
    var f, bits := x / u, x % u;
    assert x == f * u + bits;
    RoundedFrom(mode, sign, x, u, f, bits);
    if mode == NearestEven && 2 * bits == u {
      TieMask(f, u);
      assert x + u / 2 == (f + 1) * u;
      MaskedTie(x + u / 2, bits, u);
    } else {
      MaskedFrom(mode, sign, u, f, bits);
    }
  }

  lemma MaskedTie(x: int, bits: int, u: int)
    requires u > 0 && 2 * bits == u
    ensures Masked(NearestEven, x, bits, u) == x - x % (2 * u)
  {
  }

  lemma TieMask(f: int, u: int)
    requires u > 0
    ensures (f + 1) * u - (f + 1) * u % (2 * u) == (if f % 2 == 0 then f else f + 1) * u
  {
    var g := (f + 1) / 2;
    if f % 2 == 0 {
      assert (f + 1) * u == g * (2 * u) + u by { assert f + 1 == 2 * g + 1; MulAssoc(g, 2, u); }
      DivUnique((f + 1) * u, 2 * u, g, u);
    } else {
      assert (f + 1) * u == g * (2 * u) by { assert f + 1 == 2 * g; MulAssoc(g, 2, u); }
      DivUnique((f + 1) * u, 2 * u, g, 0);
    }
  }

  /** The increment carries out of the top exactly when the rounded value reaches it. */
  lemma CarryOut(mode: Mode, sign: bool, x: int, u: int, top: int)
    requires u > 0 && u % 4 == 0 && 0 <= x < top && top % (2 * u) == 0
    ensures var r := Masked(mode, x + Increment(mode, sign, u), x % u, u);
            && r <= top
            && (x + Increment(mode, sign, u) >= top <==> r == top)
  {
    var inc, m := Increment(mode, sign, u), top / (2 * u);
    assert top == m * (2 * u);
    assert top == 2 * m * u by { MulAssoc(m, 2, u); }
    var y := x + inc;
    assert 0 <= inc < u;
    assert x <= top - 1;
    if y >= top {
      DivUnique(y, 2 * u, m, y - top);
      DivUnique(y, u, 2 * m, y - top);
    }
  }

  // ---- Single and double precision -------------------------------------------------------------

  /** After both jams the narrow code still rounds the exact value. */
  lemma NarrowJam(p: Precision, mode: Mode, sign: bool, s: int, c: nat)
    requires p != Extended
    ensures var x, u := Jam(Jam(s, W), Pow2(c)), Unit(p);
            && Rounded(mode, sign, x, u / 2) == Rounded(mode, sign, s, HalfQuantum(p, c))
            && (x % u == 0 <==> s % (2 * HalfQuantum(p, c)) == 0)
  {
    hide Jam, Rounded, Pow2;
    var y, u, t := Jam(s, W), Unit(p), Pow2(c);
    var h := u / 2;
    EvenProducts(t, h);
    JamRounds(mode, sign, y, t, h);
    JamRounds(mode, sign, s, W, t * h);
    JamThenDivide(y, t, u);
    JamThenDivide(s, W, t * u);
    assert W * (t * h) == HalfQuantum(p, c) && W * (t * u) == 2 * HalfQuantum(p, c);
  }

  lemma EvenProducts(t: int, h: int)
    requires t >= 1 && h > 0 && h % 2 == 0
    ensures t * h > 0 && t * h % 2 == 0 && t * (2 * h) == 2 * (t * h)
  {
    MulMono(1, t, h);
    assert t * h == 2 * (t * (h / 2)) by { MulAssoc(t, 2, h / 2); }
  }

  lemma JamByOne(x: int)
    ensures Jam(x, Pow2(0)) == x && Pow2(0) == 1
  {
  }

  lemma JamSticky(sig0: Word, sig1: Word)
    ensures OrFlag(sig0, sig1 != 0) == Jam(Val2(sig0, sig1), W)
  {
    JamFrom(Val2(sig0, sig1), W, sig0, sig1);
  }

  lemma TopIsWhole(p: Precision)
    ensures Unit(p) > 0 && W % (2 * Unit(p)) == 0 && TWO63 % (2 * Unit(p)) == 0
  {
  }

  /** The exponent is in range and no carry leaves it. */
  method NarrowNormal(p: Precision, sign: bool, exp: int, x: Word, st: Status) returns (z: Floatx80)
    requires p != Extended && 1 <= exp <= MAX_EXP && TWO63 <= x
    requires exp == MAX_EXP ==> x + Increment(st.mode, sign, Unit(p)) < W
    modifies st`flags
    ensures Holds(z, sign, exp, Rounded(st.mode, sign, x, Unit(p) / 2) * Unit(p))
    ensures st.flags == old(st.flags) + if x % Unit(p) == 0 then {} else {Inexact}
  {
    hide Rounded;
    var u, inc := Unit(p), Increment(st.mode, sign, Unit(p));
    var bits := x % u;
    IncrementAndMask(st.mode, sign, x, u);
    TopIsWhole(p);
    CarryOut(st.mode, sign, x, u, W);
    JamByOne(0);
    if bits != 0 { st.Raise({Inexact}); }
    var y, e := (x + inc) % W, exp;
    if y < inc {
      e, y := e + 1, TWO63;
      assert Pow2(1) == 2;
    }
    StaysNormal(st.mode, y, bits, u);
    y := Masked(st.mode, y, bits, u);
    if y == 0 { e := 0; }
    z := Floatx80(sign, e, y);
  }

  /** Masking a normalised significand leaves it normalised, and leaves the carry value alone. */
  lemma StaysNormal(mode: Mode, y: Word, bits: int, u: int)
    requires u > 0 && TWO63 % (2 * u) == 0 && y >= TWO63
    ensures TWO63 <= Masked(mode, y, bits, u) <= y
    ensures y == TWO63 ==> Masked(mode, y, bits, u) == y
  {
    MaskFloor(y, 2 * u);
    assert TWO63 == TWO63 / (2 * u) * (2 * u);
    assert TWO63 == 2 * (TWO63 / (2 * u)) * u by { MulAssoc(TWO63 / (2 * u), 2, u); }
    DivAddMul(0, u, 2 * (TWO63 / (2 * u)));
    MaskFloor(y, u);
  }

  lemma MaskFloor(y: int, m: int)
    requires m > 0 && y >= TWO63 && TWO63 % m == 0
    ensures TWO63 <= y - y % m <= y
  {
    DivMono(TWO63, y, m);
    MulMono(TWO63 / m, y / m, m);
  }

  /** Below the normal range: shift right with jamming, then round at the fixed quantum. */
  method NarrowSubnormal(p: Precision, sign: bool, exp: int, x: Word, isTiny: bool, st: Status) returns (z: Floatx80)
    requires p != Extended && exp <= 0
    modifies st`flags
    ensures var y := Jam(x, Pow2(1 - exp));
            && Holds(z, sign, exp, Rounded(st.mode, sign, y, Unit(p) / 2) * Unit(p))
            && st.flags == old(st.flags) + if y % Unit(p) == 0 then {} else if isTiny then {Inexact, Underflow} else {Inexact}
  {
    hide Rounded, Jam;
    var u, inc := Unit(p), Increment(st.mode, sign, Unit(p));
    var y := Frac64ShrJam(x, 1 - exp);
    HalvedAtLeast(x, 1 - exp);
    var bits := y % u;
    IncrementAndMask(st.mode, sign, y, u);
    TopIsWhole(p);
    CarryOut(st.mode, sign, y, u, TWO63);
    JamByOne(0);
    if isTiny && bits != 0 { st.Raise({Underflow}); }
    if bits != 0 { st.Raise({Inexact}); }
    var r, e := y + inc, 0;
    if r >= TWO63 { e := 1; }
    r := Masked(st.mode, r, bits, u);
    RoundedNotNegative(st.mode, sign, y, u);
    z := Floatx80(sign, e, r);
  }

  lemma HalvedAtLeast(x: Word, c: nat)
    requires c >= 1
    ensures 0 <= Jam(x, Pow2(c)) < TWO63
  {
    Pow2Mono(1, c);
    var q, r := x / Pow2(c), x % Pow2(c);
    assert x == q * Pow2(c) + r;
    if q >= TWO63 { MulMono(2, Pow2(c), q); }
    if q < 0 { MulMono(q, -1, Pow2(c)); }
    assert TWO63 % 2 == 0;
  }

  lemma RoundedNotNegative(mode: Mode, sign: bool, y: int, u: int)
    requires u > 0 && u % 4 == 0 && y >= 0
    ensures Rounded(mode, sign, y, u / 2) * u >= 0
  {
    DivMono(0, y, u / 2);
    MulMono(0, Rounded(mode, sign, y, u / 2), u);
  }

  // ---- Extended precision ----------------------------------------------------------------------

  function FullIncrement(mode: Mode, sign: bool, sig1: Word): bool {
    match mode
    case NearestEven => sig1 >= TWO63
    case TiesAway => sig1 >= TWO63
    case ToZero => false
    case Up => !sign && sig1 != 0
    case Down => sign && sig1 != 0
  }

  /** The increment, and the even neighbour when the dropped word is exactly one half. */
  function Incremented(mode: Mode, sign: bool, sig0: Word, sig1: Word): int {
    if !FullIncrement(mode, sign, sig1) then sig0
    else if mode == NearestEven && sig1 == TWO63 then sig0 + 1 - (sig0 + 1) % 2
    else sig0 + 1
  }

  lemma IncrementedIsRounded(mode: Mode, sign: bool, sig0: Word, sig1: Word)
    ensures Incremented(mode, sign, sig0, sig1) == Rounded(mode, sign, Val2(sig0, sig1), TWO63)
  {
    HalfCount(Val2(sig0, sig1), W, sig0, sig1);
  }

  method FullNormal(sign: bool, exp: int, sig0: Word, sig1: Word, st: Status) returns (z: Floatx80)
    requires 1 <= exp <= MAX_EXP && TWO63 <= sig0
    requires exp == MAX_EXP ==> !(sig0 == W - 1 && FullIncrement(st.mode, sign, sig1))
    modifies st`flags
    ensures Holds(z, sign, exp, Rounded(st.mode, sign, Val2(sig0, sig1), TWO63))
    ensures st.flags == old(st.flags) + if sig1 == 0 then {} else {Inexact}
  {
    hide Rounded;
    IncrementedIsRounded(st.mode, sign, sig0, sig1);
    JamByOne(0);
    if sig1 != 0 { st.Raise({Inexact}); }
    var y, e := sig0, exp;
    if FullIncrement(st.mode, sign, sig1) {
      y := (y + 1) % W;
      if y == 0 {
        e, y := e + 1, TWO63;
        assert Pow2(1) == 2;
      } else if sig1 * 2 % W == 0 && st.mode == NearestEven {
        y := y - y % 2;
      }
    } else if y == 0 {
      e := 0;
    }
    z := Floatx80(sign, e, y);
  }

  /** Two values that rounding at half-quanta h and h' cannot tell apart. */
  ghost predicate SameSide(s: int, h: int, z: int, h': int) {
    && h > 0 && h' > 0
    && s / h == z / h' && (s % h == 0 <==> z % h' == 0)
  }

  lemma ShiftedPair(s: int, sig0: int, d: int, z: int, d': int, m: int, r: int, r': int)
    requires d > 0 && d' > 0 && m > 0
    requires s == sig0 * d + r && 0 <= r < d && z == sig0 * d' + r' && 0 <= r' < d' && (r == 0 <==> r' == 0)
    ensures SameSide(s, d * m, z, d' * m)
  {
    DivUnique(s, d, sig0, r);
    DivUnique(z, d', sig0, r');
    DivideTwice(s, d, m);
    DivideTwice(z, d', m);
  }

  /** A shift by less than a word keeps the top word, scaled, and a flag. */
  lemma ShortExtraShift(sig0: Word, sig1: Word, c: nat)
    requires 1 <= c < 64
    ensures var z1 := OrFlag(Shl(sig0, 64 - c), sig1 != 0);
            && Val2(Shr(sig0, c), z1) == sig0 * Pow2(64 - c) + (if sig1 != 0 then 1 else 0)
            && Pow2(64 - c) >= 2 && Pow2(64 - c) * Pow2(c) == W && Pow2(64 - c) * Pow2(c - 1) == TWO63
  {
    hide Shr, Low, Shl, Pow2, OrFlag;
    ScalePowers(c);
    ShlSplit(sig0, 64 - c);
    EvenMultiple(Low(sig0, c), Pow2(64 - c));
    FlagOnEven(Shl(sig0, 64 - c), sig1 != 0);
  }

  lemma ScalePowers(c: nat)
    requires 1 <= c < 64
    ensures var p := Pow2(64 - c);
            p >= 2 && p % 2 == 0 && p * Pow2(c) == W && p * Pow2(c - 1) == TWO63
  {
    hide Pow2;
    Halves(0, 64 - c);
    Pow2Add(64 - c, c - 1);
    Pow2Add(64 - c, c);
    Pow2Values();
  }

  lemma EvenMultiple(k: int, p: int)
    requires p % 2 == 0
    ensures k * p % 2 == 0
  {
    MulAssoc(k, 2, p / 2);
  }

  lemma FlagOnEven(x: Word, flag: bool)
    requires x % 2 == 0
    ensures OrFlag(x, flag) == x + if flag then 1 else 0
  {
  }

  /** shift64ExtraRightJamming: the extra word keeps the last bit shifted off and whether any other was set. */
  method ExtraShift(sig0: Word, sig1: Word, c: nat) returns (z0: Word, z1: Word)
    requires c >= 1
    ensures z0 < TWO63
    ensures SameSide(Val2(sig0, sig1), TWO63 * Pow2(c), Val2(z0, z1), TWO63)
    ensures SameSide(Val2(sig0, sig1), W * Pow2(c), Val2(z0, z1), W)
  {
    hide Pow2, Shr, Low, Shl, OrFlag, SameSide;
    ghost var s := Val2(sig0, sig1);
    if c < 64 {
      z0 := ShrWord(sig0, c);
      z1 := OrFlag(Shl(sig0, 64 - c), sig1 != 0);
      ShortExtraShift(sig0, sig1, c);
      ghost var f := if sig1 != 0 then 1 else 0;
      ghost var q := Pow2(64 - c);
      ShiftedPair(s, sig0, W, Val2(z0, z1), q, Pow2(c - 1), sig1, f);
      ShiftedPair(s, sig0, W, Val2(z0, z1), q, Pow2(c), sig1, f);
      PowStep(c);
      SmallTop(sig0, z0, c);
    } else {
      z0 := 0;
      if c == 64 {
        z1 := OrFlag(sig0, sig1 != 0);
        LongShift(sig0, sig1);
      } else {
        z1 := if sig0 != 0 || sig1 != 0 then 1 else 0;
        LostShift(s, c, z1);
      }
    }
  }

  lemma PowStep(c: nat)
    requires c >= 1
    ensures W * Pow2(c - 1) == TWO63 * Pow2(c)
  {
  }

  lemma SmallTop(a: Word, v: Word, c: nat)
    requires c >= 1 && a == v * Pow2(c) + Low(a, c)
    ensures v < TWO63
  {
    Pow2Mono(1, c);
    if v >= TWO63 { MulMono(2, Pow2(c), v); }
  }

  lemma LongShift(sig0: Word, sig1: Word)
    ensures var s, z := Val2(sig0, sig1), OrFlag(sig0, sig1 != 0);
            SameSide(s, TWO63 * Pow2(64), z, TWO63) && SameSide(s, W * Pow2(64), z, W)
  {
    hide Jam, OrFlag;
    Pow2Values();
    JamSticky(sig0, sig1);
    JamThenDivide(Val2(sig0, sig1), W, TWO63);
    JamThenDivide(Val2(sig0, sig1), W, W);
  }

  lemma LostShift(s: int, c: nat, z: int)
    requires 0 <= s < W2 && c > 64 && z == if s != 0 then 1 else 0
    ensures SameSide(s, TWO63 * Pow2(c), z, TWO63) && SameSide(s, W * Pow2(c), z, W)
  {
    hide Pow2;
    Pow2Mono(65, c);
    Pow2Add(64, 1);
    Pow2Values();
    assert Pow2(c) >= 2 * W by { FirstPower(); }
    DivUnique(s, TWO63 * Pow2(c), 0, s);
    DivUnique(s, W * Pow2(c), 0, s);
  }

  lemma FirstPower()
    ensures Pow2(1) == 2
  {
  }

  method FullSubnormal(sign: bool, exp: int, sig0: Word, sig1: Word, isTiny: bool, st: Status) returns (z: Floatx80)
    requires exp <= 0
    modifies st`flags
    ensures var s := Val2(sig0, sig1);
            && Holds(z, sign, exp, Quanta(Extended, st.mode, sign, exp, s))
            && st.flags == old(st.flags) + RoundingFlags(Extended, isTiny, exp, s)
  {
    hide Rounded, HalfQuantum, Pow2, SameSide, Exact, Holds;
    var y, extra := ExtraShift(sig0, sig1, 1 - exp);
    ExtraRounds(st.mode, sign, exp, Val2(sig0, sig1), y, extra);
    ghost var n := Quanta(Extended, st.mode, sign, exp, Val2(sig0, sig1));
    if isTiny && extra != 0 { st.Raise({Underflow}); }
    if extra != 0 { st.Raise({Inexact}); }
    var e := 0;
    if FullIncrement(st.mode, sign, extra) {
      y := y + 1;
      if extra * 2 % W == 0 && st.mode == NearestEven { y := y - y % 2; }
      if y >= TWO63 { e := 1; }
    }
    z := Floatx80(sign, e, y);
    HoldsSubnormal(z, sign, exp, n);
  }

  /** At the bottom of the range the significand is the count of quanta. */
  lemma HoldsSubnormal(z: Floatx80, sign: bool, exp: int, n: int)
    requires exp <= 0 && z.sign == sign && z.sig == n && z.exp == (if z.sig < TWO63 then 0 else 1)
    ensures Holds(z, sign, exp, n)
  {
    PowZero();
  }

  /** Rounding and exactness of the shifted pair are those of the input. */
  lemma ExtraRounds(mode: Mode, sign: bool, exp: int, s: int, y: Word, extra: Word)
    requires exp <= 0 && SameSide(s, TWO63 * Pow2(1 - exp), Val2(y, extra), TWO63) && SameSide(s, W * Pow2(1 - exp), Val2(y, extra), W)
    ensures Quanta(Extended, mode, sign, exp, s) == Incremented(mode, sign, y, extra)
    ensures Exact(Extended, exp, s) <==> extra == 0
  {
    hide Rounded, Pow2, Incremented;
    IncrementedIsRounded(mode, sign, y, extra);
    SameRounding(mode, sign, s, HalfQuantum(Extended, 1 - exp), Val2(y, extra), TWO63);
    DivUnique(Val2(y, extra), W, y, extra);
    assert 2 * HalfQuantum(Extended, 1 - exp) == W * Pow2(1 - exp);
  }

  lemma SameRounding(mode: Mode, sign: bool, s: int, h: int, z: int, h': int)
    requires SameSide(s, h, z, h')
    ensures Rounded(mode, sign, s, h) == Rounded(mode, sign, z, h')
  {
  }

  // ---- The whole function ------------------------------------------------------------------------

  ghost predicate Outcome(p: Precision, mode: Mode, flush: bool, intBitZero: bool, sign: bool, exp: int, s: int, z: Floatx80) {
    if Overflows(p, mode, sign, exp, s) then
      z == if Truncates(mode, sign) then MaxFinite(p, sign) else Infinity(sign, intBitZero)
    else if p != Extended && exp <= 0 && flush then z == Floatx80(sign, 0, 0)
    else Holds(z, sign, exp, Quanta(p, mode, sign, exp, s) * Unit(p))
  }

  function Raised(p: Precision, mode: Mode, before: bool, flush: bool, sign: bool, exp: int, s: int): set<Flag> {
    if Overflows(p, mode, sign, exp, s) then {Overflow, Inexact}
    else if p != Extended && exp <= 0 && flush then {OutputDenormalFlushed}
    else RoundingFlags(p, Tiny(before, p, mode, sign, exp, s), exp, s)
  }

  method PackOverflow(p: Precision, sign: bool, st: Status) returns (z: Floatx80)
    modifies st`flags
    ensures z == if Truncates(st.mode, sign) then MaxFinite(p, sign) else Infinity(sign, st.infIntBitZero)
    ensures st.flags == old(st.flags) + {Overflow, Inexact}
  {
    st.Raise({Overflow, Inexact});
    if st.mode == ToZero || (sign && st.mode == Up) || (!sign && st.mode == Down) {
      return Floatx80(sign, MAX_EXP, W - Unit(p));
    }
    z := Floatx80(sign, 0x7FFF, if st.infIntBitZero then 0 else TWO63);
  }

  method PackNarrow(p: Precision, sign: bool, exp: int, sig0: Word, sig1: Word, st: Status) returns (z: Floatx80)
    requires p != Extended && (exp >= 1 ==> TWO63 <= sig0)
    modifies st`flags
    ensures Outcome(p, st.mode, st.flushToZero, st.infIntBitZero, sign, exp, Val2(sig0, sig1), z)
    ensures st.flags == old(st.flags) + Raised(p, st.mode, st.tininessBefore, st.flushToZero, sign, exp, Val2(sig0, sig1))
  {
    hide Rounded, Jam, Holds, HalfQuantum, Pow2, OrFlag, Increment;
    ghost var s := Val2(sig0, sig1);
    var inc := Increment(st.mode, sign, Unit(p));
    var x := OrFlag(sig0, sig1 != 0);
    NarrowFacts(p, st.mode, sign, sig0, sig1);
    if exp <= 0 || exp >= MAX_EXP {
      if exp > MAX_EXP || (exp == MAX_EXP && (x + inc) % W < x) {
        z := PackOverflow(p, sign, st);
        return;
      }
      if exp <= 0 {
        if st.flushToZero {
          st.Raise({OutputDenormalFlushed});
          return Floatx80(sign, 0, 0);
        }
        var isTiny := st.tininessBefore || exp < 0 || x <= (x + inc) % W;
        JamSticky(sig0, sig1);
        NarrowJam(p, st.mode, sign, s, 1 - exp);
        z := NarrowSubnormal(p, sign, exp, x, isTiny, st);
        return;
      }
    }
    z := NarrowNormal(p, sign, exp, x, st);
  }

  /** The sticky word rounds as the exact value does, and wraps exactly when the rounded value reaches the top. */
  lemma NarrowFacts(p: Precision, mode: Mode, sign: bool, sig0: Word, sig1: Word)
    requires p != Extended
    ensures var x, u, s := OrFlag(sig0, sig1 != 0), Unit(p), Val2(sig0, sig1);
            var y := x + Increment(mode, sign, u);
            && x >= sig0
            && Rounded(mode, sign, x, u / 2) == Rounded(mode, sign, s, HalfQuantum(p, 0))
            && (x % u == 0 <==> s % (2 * HalfQuantum(p, 0)) == 0)
            && (Rounded(mode, sign, s, HalfQuantum(p, 0)) * u == W <==> y >= W)
            && (y % W < x <==> y >= W)
  {
    hide Rounded, Jam, HalfQuantum, Pow2, OrFlag, Increment, Masked;
    var x, u := OrFlag(sig0, sig1 != 0), Unit(p);
    JamSticky(sig0, sig1);
    JamByOne(x);
    NarrowJam(p, mode, sign, Val2(sig0, sig1), 0);
    IncrementAndMask(mode, sign, x, u);
    TopIsWhole(p);
    CarryOut(mode, sign, x, u, W);
    FlagRange(sig0, sig1 != 0);
    IncrementRange(mode, sign, p);
    Wraps(x, Increment(mode, sign, u));
  }

  lemma Wraps(x: Word, inc: int)
    requires 0 <= inc < W
    ensures (x + inc) % W < x <==> x + inc >= W
  {
  }

  lemma FlagRange(x: Word, flag: bool)
    ensures x <= OrFlag(x, flag)
  {
  }

  lemma IncrementRange(mode: Mode, sign: bool, p: Precision)
    requires p != Extended
    ensures 0 <= Increment(mode, sign, Unit(p)) < Unit(p)
  {
  }

  method PackExtended(sign: bool, exp: int, sig0: Word, sig1: Word, st: Status) returns (z: Floatx80)
    requires exp >= 1 ==> TWO63 <= sig0
    modifies st`flags
    ensures Outcome(Extended, st.mode, st.flushToZero, st.infIntBitZero, sign, exp, Val2(sig0, sig1), z)
    ensures st.flags == old(st.flags) + Raised(Extended, st.mode, st.tininessBefore, st.flushToZero, sign, exp, Val2(sig0, sig1))
  {
    hide Rounded, Jam, Holds, Pow2;
    ghost var s := Val2(sig0, sig1);
    var increment := FullIncrement(st.mode, sign, sig1);
    IncrementedIsRounded(st.mode, sign, sig0, sig1);
    DivUnique(s, W, sig0, sig1);
    JamByOne(0);
    assert HalfQuantum(Extended, 0) == TWO63;
    if exp <= 0 || exp >= MAX_EXP {
      if exp > MAX_EXP || (exp == MAX_EXP && sig0 == W - 1 && increment) {
        z := PackOverflow(Extended, sign, st);
        return;
      }
      if exp <= 0 {
        var isTiny := st.tininessBefore || exp < 0 || !increment || sig0 < W - 1;
        z := FullSubnormal(sign, exp, sig0, sig1, isTiny, st);
        return;
      }
    }
    z := FullNormal(sign, exp, sig0, sig1, st);
  }

  /** roundAndPackFloatx80. */
  method RoundAndPack(p: Precision, sign: bool, exp: int, sig0: Word, sig1: Word, st: Status) returns (z: Floatx80)
    requires exp >= 1 ==> TWO63 <= sig0
    modifies st`flags
    ensures Outcome(p, st.mode, st.flushToZero, st.infIntBitZero, sign, exp, Val2(sig0, sig1), z)
    ensures st.flags == old(st.flags) + Raised(p, st.mode, st.tininessBefore, st.flushToZero, sign, exp, Val2(sig0, sig1))
  {
    if p == Extended {
      z := PackExtended(sign, exp, sig0, sig1, st);
    } else {
      z := PackNarrow(p, sign, exp, sig0, sig1, st);
    }
  }
}
