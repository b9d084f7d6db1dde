/**
 What packing means among all numbers of the format: no representable value is a better answer.
 */
module CorrectRounding {
  import opened Words
  import opened Wide
  import opened Rounding
  import opened RoundPack

  /** Significand bits of the IEEE 754 single and double formats, and of the extended double itself. */
  function Bits(p: Precision): nat {
    match p
    case Single => 24
    case Double => 53
    case Extended => 64
  }

  /** A finite extended double whose significand has no more bits than the precision. */
  predicate Representable(p: Precision, y: Floatx80) {
    y.exp <= MAX_EXP && y.sig % Pow2(64 - Bits(p)) == 0
  }

  /** The rounding masks are those of the formats. */
  lemma UnitPower(p: Precision)
    ensures Pow2(64 - Bits(p)) == Unit(p)
  {
    assert Pow2(11) == 0x800;
    Pow2Values();
  }

  /** The magnitude of y, in the units in which an input (exp, s) has the magnitude s * Pow2(Weight(exp)). */
  function Scaled(y: Floatx80, exp: int): int {
    y.sig * Pow2(Weight(y.exp)) * (W * Pow2(Depth(exp)))
  }

  /** Among the candidates r and y for x, r is the right answer in this mode. */
  ghost predicate Better(mode: Mode, sign: bool, x: int, r: int, even: bool, y: int) {
    if Truncates(mode, sign) then r <= x && (y <= x ==> y <= r)
    else if RoundsAway(mode, sign) then x <= r && (x <= y ==> r <= y)
    else
      && Abs(r - x) <= Abs(y - x)
      && (Abs(r - x) == Abs(y - x) && y != r ==> if mode == NearestEven then even else x < r)
  }

  /** y is on the grid of the quantum, or below the binade of the input. */
  lemma OnGrid(p: Precision, exp: int, y: Floatx80) returns (g: int)
    requires Representable(p, y)
    ensures var q, w := 2 * HalfQuantum(p, Depth(exp)), Pow2(Weight(exp));
            if Weight(y.exp) >= Weight(exp) then Scaled(y, exp) == g * q * w
            else exp >= 1 && Scaled(y, exp) < W2 / 2 * w
  {
    hide Pow2, HalfQuantum;
    UnitPower(p);
    var a, b := Weight(y.exp), Weight(exp);
    var t, u := Pow2(Depth(exp)), Unit(p);
    assert 2 * HalfQuantum(p, Depth(exp)) == W * u * t by { HalfValue(p, Depth(exp)); }
    if a >= b {
      var m, k := y.sig / u, Pow2(a - b);
      g := m * k;
      Pow2Add(a - b, b);
      Regroup(m, u, k, Pow2(b), t);
    } else {
      g := 0;
      PowZero();
      BelowBinade(y.sig, a, b);
    }
  }

  lemma HalfValue(p: Precision, c: nat)
    ensures 2 * HalfQuantum(p, c) == W * Unit(p) * Pow2(c)
  {
  }

  lemma Regroup(m: int, u: int, k: int, w: int, t: int)
    ensures m * u * (k * w) * (W * t) == m * k * (W * u * t) * w
  {
    var ut := u * t;
    assert m * u * (k * w) * (W * t) == (m * k) * (u * t) * w * W by {
      MulAssoc(m * u, k, w);
      assert m * u * k == m * k * u;
      assert m * k * u * w * t == (m * k) * (u * t) * w by { Shuffle(m * k, u, w, t); }
      MulAssoc(m * u * (k * w), W, t);
    }
    assert m * k * (W * u * t) * w == (m * k) * ut * w * W by {
      assert W * u * t == W * ut;
      MulAssoc(m * k, W, ut);
    }
  }

  lemma Shuffle(a: int, u: int, w: int, t: int)
    ensures a * u * w * t == a * (u * t) * w
  {
    MulAssoc(a * u, w, t);
    MulAssoc(a, u, t);
    MulAssoc(a * u, t, w);
  }

  lemma BelowBinade(sig: Word, a: nat, b: nat)
    requires a < b
    ensures sig * Pow2(a) * W < W2 / 2 * Pow2(b)
  {
    assert Pow2(b) == 2 * Pow2(b - 1);
    hide Pow2;
    Pow2Mono(a, b - 1);
    var x := sig * Pow2(a);
    MulMono(sig, W - 1, Pow2(a));
    MulMono(Pow2(a), Pow2(b - 1), W - 1);
    assert x <= W * Pow2(b - 1) - Pow2(b - 1);
  }

  /** No representable value lies strictly between the input and its two neighbours on the grid. */
  lemma Neighbours(p: Precision, exp: int, s: int, y: Floatx80)
    requires Representable(p, y) && 0 <= s < W2 && (exp >= 1 ==> s >= W2 / 2)
    ensures var q, w := 2 * HalfQuantum(p, Depth(exp)), Pow2(Weight(exp));
            && (Scaled(y, exp) <= s * w ==> Scaled(y, exp) <= s / q * q * w)
            && (Scaled(y, exp) >= s * w ==> Scaled(y, exp) >= (if s % q == 0 then s / q else s / q + 1) * q * w)
  {
    hide Pow2, HalfQuantum, Scaled;
    var q, w := 2 * HalfQuantum(p, Depth(exp)), Pow2(Weight(exp));
    var g := OnGrid(p, exp, y);
    var f, r := s / q, s % q;
    assert s == f * q + r;
    if Weight(y.exp) >= Weight(exp) {
      GridSide(g, f, q, r, w);
    } else {
      assert f * q >= W2 / 2 by { BinadeOnGrid(p, exp, s); }
      MulMono(W2 / 2, f * q, w);
      MulMono(f * q, s, w);
    }
  }

  lemma GridSide(g: int, f: int, q: int, r: int, w: int)
    requires q > 0 && 0 <= r < q && w >= 1
    ensures g * q * w <= (f * q + r) * w ==> g * q * w <= f * q * w
    ensures g * q * w >= (f * q + r) * w ==> g * q * w >= (if r == 0 then f else f + 1) * q * w
  {
    assert (f + 1) * q == f * q + q;
    if g <= f {
      MulMono(g, f, q);
      MulMono(g * q, f * q, w);
      if g < f || r > 0 {
        assert g * q < f * q + r by { if g < f { MulMono(g + 1, f, q); } }
        MulMono(g * q + 1, f * q + r, w);
      }
    } else {
      MulMono(f + 1, g, q);
      MulMono((f + 1) * q, g * q, w);
      MulMono(f * q + r + 1, g * q, w);
    }
  }

  /** The bottom of a binade is a whole number of quanta. */
  lemma BinadeOnGrid(p: Precision, exp: int, s: int)
    requires exp >= 1 && s >= W2 / 2
    ensures s / (2 * HalfQuantum(p, Depth(exp))) * (2 * HalfQuantum(p, Depth(exp))) >= W2 / 2
  {
    var q := 2 * HalfQuantum(p, 0);
    assert q == W * Unit(p) by { PowZero(); }
    var m := TWO63 / Unit(p);
    assert W2 / 2 == m * q;
    DivUnique(W2 / 2, q, m, 0);
    DivMono(W2 / 2, s, q);
    MulMono(m, s / q, q);
  }

  /** What the encoded number weighs. */
  lemma HeldValue(z: Floatx80, p: Precision, sign: bool, exp: int, n: int)
    requires Holds(z, sign, exp, n * Unit(p))
    ensures Scaled(z, exp) == n * (2 * HalfQuantum(p, Depth(exp))) * Pow2(Weight(exp))
  {
    hide Pow2, HalfQuantum;
    var a, b := Weight(z.exp), Weight(exp);
    var t, u := Pow2(Depth(exp)), Unit(p);
    HalfValue(p, Depth(exp));
    Pow2Add(a - b, b);
    MulAssoc(z.sig, Pow2(a - b), Pow2(b));
    Regroup(n, u, 1, Pow2(b), t);
  }

  /** The encoded number is itself of the format. */
  lemma HeldRepresentable(z: Floatx80, p: Precision, mode: Mode, sign: bool, exp: int, s: int)
    requires 0 <= s < W2 && Holds(z, sign, exp, Quanta(p, mode, sign, exp, s) * Unit(p))
    ensures Representable(p, z)
  {
    hide Rounded, HalfQuantum;
    UnitPower(p);
    var u, n := Unit(p), Quanta(p, mode, sign, exp, s);
    var k := Weight(z.exp) - Weight(exp);
    AtMostTop(p, mode, sign, Depth(exp), s);
    if k == 0 {
      assert z.sig == n * u;
      DivUnique(z.sig, u, n, 0);
    } else {
      Pow2Mono(1, k);
      MulMono(2, Pow2(k), z.sig);
      assert z.sig == TWO63;
      TopIsWhole(p);
    }
  }

  lemma AtMostTop(p: Precision, mode: Mode, sign: bool, c: nat, s: int)
    requires 0 <= s < W2
    ensures Rounded(mode, sign, s, HalfQuantum(p, c)) * Unit(p) <= W
  {
    hide Rounded, HalfQuantum;
    var q, u := 2 * HalfQuantum(p, c), Unit(p);
    RoundedNear(mode, sign, s, HalfQuantum(p, c));
    HalfValue(p, c);
    assert q >= W * u by { MulMono(1, Pow2(c), W * u); }
    var f, m := s / q, W / u;
    assert m * u == W && m * (W * u) == W2;
    assert f < m by {
      if f >= m {
        MulMono(m, f, q);
        MulMono(W * u, q, m);
      }
    }
    MulMono(Rounded(mode, sign, s, HalfQuantum(p, c)), m, u);
  }

  /** Correct rounding: the encoded number is of the format, and no number of the format is better. */
  lemma CorrectlyRounded(p: Precision, mode: Mode, sign: bool, exp: int, s: int, z: Floatx80, y: Floatx80)
    requires 0 <= s < W2 && (exp >= 1 ==> s >= W2 / 2)
    requires Holds(z, sign, exp, Quanta(p, mode, sign, exp, s) * Unit(p)) && Representable(p, y)
    ensures Representable(p, z)
    ensures Better(mode, sign, s * Pow2(Weight(exp)), Scaled(z, exp), Quanta(p, mode, sign, exp, s) % 2 == 0, Scaled(y, exp))
  {
    hide Rounded, HalfQuantum, Scaled, Holds, Pow2;
    var h, n, w := HalfQuantum(p, Depth(exp)), Quanta(p, mode, sign, exp, s), Pow2(Weight(exp));
    HeldRepresentable(z, p, mode, sign, exp, s);
    HeldValue(z, p, sign, exp, n);
    Neighbours(p, exp, s, y);
    RoundedIsRounded(mode, sign, s, h);
    RoundedNear(mode, sign, s, h);
    BetterOnGrid(mode, sign, s, 2 * h, w, n, Scaled(y, exp));
  }

  lemma BetterOnGrid(mode: Mode, sign: bool, s: int, q: int, w: int, n: int, y: int)
    requires q > 0 && w >= 1 && IsRounded(mode, sign, s, q, n)
    requires n == s / q || (n == s / q + 1 && s % q != 0)
    requires y <= s * w ==> y <= s / q * q * w
    requires y >= s * w ==> y >= (if s % q == 0 then s / q else s / q + 1) * q * w
    ensures Better(mode, sign, s * w, n * q * w, n % 2 == 0, y)
  {
    BetterInCell(mode, sign, s, q, w, n, y, s / q, s % q);
  }

  /** Which end of a cell of width c a value b into it goes to. */
  ghost predicate CellChoice(mode: Mode, sign: bool, b: int, c: int, up: bool, even: bool) {
    && 0 <= b < c && (up ==> b > 0)
    && (Truncates(mode, sign) ==> !up)
    && (RoundsAway(mode, sign) && b > 0 ==> up)
    && (!Truncates(mode, sign) && !RoundsAway(mode, sign) ==>
          && (if up then 2 * b >= c else 2 * b <= c)
          && (2 * b == c ==> if mode == NearestEven then even else up))
  }

  lemma ScaledChoice(mode: Mode, sign: bool, b: int, c: int, up: bool, even: bool, w: int)
    requires w >= 1 && CellChoice(mode, sign, b, c, up, even)
    ensures CellChoice(mode, sign, b * w, c * w, up, even)
  {
    Scales(b, c, w);
    Scales(0, b, w);
    Scales(2 * b, c, w);
    Scales(c, 2 * b, w);
    assert 2 * b * w == 2 * (b * w);
  }

  lemma BetterInCell(mode: Mode, sign: bool, s: int, q: int, w: int, n: int, y: int, f: int, r: int)
    requires q > 0 && w >= 1 && IsRounded(mode, sign, s, q, n)
    requires s == f * q + r && 0 <= r < q && (n == f || (n == f + 1 && r != 0))
    requires y <= s * w ==> y <= f * q * w
    requires y >= s * w ==> y >= (if r == 0 then f else f + 1) * q * w
    ensures Better(mode, sign, s * w, n * q * w, n % 2 == 0, y)
  {
    hide IsRounded, Better, CellChoice, Truncates, RoundsAway;
    ChoiceMade(mode, sign, s, q, n, f, r);
    ScaledChoice(mode, sign, r, q, n != f, n % 2 == 0, w);
    Scales(0, r, w);
    CellProducts(f, q, r, w);
    BetterOfTwo(mode, sign, f * q * w, r * w, q * w, n != f, n % 2 == 0, y);
  }

  lemma CellProducts(f: int, q: int, r: int, w: int)
    ensures (f * q + r) * w == f * q * w + r * w && (f + 1) * q * w == f * q * w + q * w
  {
    var fq := f * q;
    assert (f + 1) * q == fq + q;
    assert (fq + r) * w == fq * w + r * w && (fq + q) * w == fq * w + q * w;
  }

  lemma ChoiceMade(mode: Mode, sign: bool, s: int, q: int, n: int, f: int, r: int)
    requires q > 0 && IsRounded(mode, sign, s, q, n)
    requires s == f * q + r && 0 <= r < q && (n == f || (n == f + 1 && r != 0))
    ensures CellChoice(mode, sign, r, q, n != f, n % 2 == 0)
  {
    var fq := f * q;
    assert (f + 1) * q == fq + q;
    assert n * q == if n == f then fq else fq + q;
  }

  /** The same with the products named: x = a + b lies in the cell from a to a + c. */
  lemma BetterOfTwo(mode: Mode, sign: bool, a: int, b: int, c: int, up: bool, even: bool, y: int)
    requires CellChoice(mode, sign, b, c, up, even)
    requires y <= a + b ==> y <= a
    requires y >= a + b ==> y >= if b == 0 then a else a + c
    ensures Better(mode, sign, a + b, if up then a + c else a, even, y)
  {
  }

  lemma Scales(x: int, y: int, w: int)
    requires w >= 1
    ensures (x < y <==> x * w < y * w) && (x == y <==> x * w == y * w)
  {
    if x < y { MulMono(x + 1, y, w); }
    if y < x { MulMono(y + 1, x, w); }
  }

  /** Inexact means not of the format: the result equals the input exactly when some number of the format does. */
  lemma ExactIffRepresentable(p: Precision, mode: Mode, sign: bool, exp: int, s: int, z: Floatx80, y: Floatx80)
    requires 0 <= s < W2 && (exp >= 1 ==> s >= W2 / 2)
    requires Holds(z, sign, exp, Quanta(p, mode, sign, exp, s) * Unit(p)) && Representable(p, y)
    ensures Exact(p, exp, s) <==> Scaled(z, exp) == s * Pow2(Weight(exp))
    ensures Scaled(y, exp) == s * Pow2(Weight(exp)) ==> Exact(p, exp, s)
  {
    hide Rounded, HalfQuantum, Scaled, Holds, Pow2;
    var h, n, w := HalfQuantum(p, Depth(exp)), Quanta(p, mode, sign, exp, s), Pow2(Weight(exp));
    HeldValue(z, p, sign, exp, n);
    Neighbours(p, exp, s, y);
    RoundedNear(mode, sign, s, h);
    var f := s / (2 * h);
    Scales(n * (2 * h), s, w);
    Scales(f * (2 * h), (f + 1) * (2 * h), w);
    assert (f + 1) * (2 * h) == f * (2 * h) + 2 * h;
  }
}
