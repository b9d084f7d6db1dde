/**
 Right shifts that jam the dropped bits into the low bit: frac64_shrjam, frac128_shrjam and
 frac256_shrjam, and the law that makes jamming safe before rounding.
 */
module ShrJam {
  import opened Words
  import opened Wide

  const W4: int := W2 * W2

  function Val4(a0: int, a1: int, a2: int, a3: int): int { Val2(Val2(Val2(a0, a1), a2), a3) }

  /** Floor of n / d with the low bit set when the division is not exact. */
  function Jam(n: int, d: int): int
    requires d > 0
  {
    if n % d != 0 && (n / d) % 2 == 0 then n / d + 1 else n / d
  }

  lemma JamFrom(n: int, d: int, q: int, r: int)
    requires d > 0 && n == q * d + r && 0 <= r < d
    ensures Jam(n, d) == if r != 0 && q % 2 == 0 then q + 1 else q
  {
    DivUnique(n, d, q, r);
  }

  /** The low bit of a word or-ed with a flag. */
  function OrFlag(x: Word, flag: bool): Word { if flag && x % 2 == 0 then x + 1 else x }

  // ---- Jamming and later division ----------------------------------------------------------

  lemma DivideTwice(x: int, d: int, h: int)
    requires d > 0 && h > 0
    ensures d * h > 0
    ensures x / (d * h) == x / d / h
    ensures (x % (d * h) == 0) == (x / d % h == 0 && x % d == 0)
  {
    DivDiv(x, d, h);
    var q, r := x / d, x % d;
    var k, m := q / h, q % h;
    assert x == k * (d * h) + (m * d + r) by {
      assert (k * h + m) * d == k * h * d + m * d;
      MulAssoc(k, h, d);
    }
    assert m != 0 ==> m * d > 0 by { if m > 0 { MulMono(1, m, d); } }
  }

  lemma EvenPart(q: int, h: int)
    requires h > 0 && h % 2 == 0
    ensures (q % h) % 2 == q % 2
  {
    var k := q / h;
    assert q == k * h + q % h;
    assert k * h == 2 * (k * (h / 2)) by { MulAssoc(k, 2, h / 2); }
  }

  /** An even divisor cannot tell a jammed value from the exact one: same quotient, same exactness. */
  lemma JamThenDivide(x: int, d: int, h: int)
    requires d > 0 && h > 0 && h % 2 == 0
    ensures d * h > 0
    ensures Jam(x, d) / h == x / (d * h)
    ensures (Jam(x, d) % h == 0) == (x % (d * h) == 0)
  {
    DivideTwice(x, d, h);
    var q, j := x / d, Jam(x, d);
    EvenPart(q, h);
    DivUnique(j, h, q / h, q % h + (j - q));
  }

  /** Jamming by a bits and then by b bits is jamming by a + b bits. */
  lemma JamTwice(x: int, a: nat, b: nat)
    ensures Jam(Jam(x, Pow2(a)), Pow2(b)) == Jam(x, Pow2(a + b))
  {
    Pow2Add(a, b);
    if b > 0 {
      JamThenDivide(x, Pow2(a), Pow2(b));
    }
  }

  // ---- A shift in stages -------------------------------------------------------------------

  /** v holds x shifted right by n, and sticky remembers whether a one was dropped. */
  ghost predicate Shifted(x: int, n: nat, v: int, sticky: int) {
    x / Pow2(n) == v && (sticky != 0) == (x % Pow2(n) != 0)
  }

  lemma ShiftOn(x: int, n: nat, v: int, sticky: int, c: nat, v': int, r: int, sticky': int)
    requires Shifted(x, n, v, sticky)
    requires v == v' * Pow2(c) + r && 0 <= r < Pow2(c)
    requires (sticky' != 0) == (sticky != 0 || r != 0)
    ensures Shifted(x, n + c, v', sticky')
  {
    hide Pow2;
    Pow2Add(n, c);
    DivUnique(v, Pow2(c), v', r);
    DivideTwice(x, Pow2(n), Pow2(c));
  }

  /** Dropping the lowest word into sticky. */
  lemma DropWord(x: int, n: nat, hi: int, lo: Word, sticky: nat)
    requires Shifted(x, n, Val2(hi, lo), sticky)
    ensures Shifted(x, n + 64, hi, BitOr(sticky, lo))
  {
    hide Pow2, BitOr;
    Pow2Values();
    OrZero(sticky, lo);
    ShiftOn(x, n, Val2(hi, lo), sticky, 64, hi, lo, BitOr(sticky, lo));
  }

  lemma OrZero(a: nat, b: nat)
    ensures BitOr(a, b) == 0 <==> a == 0 && b == 0
  {
  }

  /** The next lower word of a shifted value. */
  lemma NextWord(x: int, y: int, l: Word, r: Word, c: nat)
    requires c < 64 && x == y * Pow2(c) + Low(l, c)
    ensures ShrDouble(l, r, c) < W
    ensures Val2(x, r) == Val2(y, ShrDouble(l, r, c)) * Pow2(c) + Low(r, c)
  {
    hide Pow2, Shr, Low, ShrDouble;
    ShrDoubleValue(l, r, c);
    ShrLow(l, c);
    var p, sd, sl := Pow2(c), ShrDouble(l, r, c), Shr(l, c);
    assert Val2(sl, sd) * p == sl * p * W + sd * p by { Distribute(sl, sd, p); }
    assert Val2(y, sd) * p == y * p * W + sd * p by { Distribute(y, sd, p); }
  }

  /** What shr_double moves out of a lone word. */
  lemma DroppedBits(a: Word, c: nat)
    requires 0 < c < 64
    ensures ShrDouble(a, 0, c) == 0 <==> Low(a, c) == 0
  {
    hide Pow2, Low;
    ShlSplit(a, 64 - c);
    ZeroShift(c);
    OrZero(Shl(a, 64 - c), 0);
    assert ShrDouble(a, 0, c) == Shl(a, 64 - c) by { OrWithZero(Shl(a, 64 - c)); }
    if Low(a, c) > 0 { MulMono(1, Low(a, c), Pow2(64 - c)); }
  }

  lemma OrWithZero(a: nat)
    ensures BitOr(a, 0) == a
  {
  }

  /** Sticky gathers what shr_double drops, and the value moves on by c. */
  lemma FinalShift(x: int, n: nat, v: int, sticky: nat, c: nat, v': int, a: Word)
    requires 0 < c < 64 && Shifted(x, n, v, sticky) && v == v' * Pow2(c) + Low(a, c)
    ensures Shifted(x, n + c, v', BitOr(sticky, ShrDouble(a, 0, c)))
  {
    hide Pow2, Low, BitOr, ShrDouble, Shifted;
    var d := ShrDouble(a, 0, c);
    DroppedBits(a, c);
    OrZero(sticky, d);
    ShrLow(a, c);
    ShiftOn(x, n, v, sticky, c, v', Low(a, c), BitOr(sticky, d));
  }

  /** Or-ing the flag into the low word jams the value. */
  lemma JamWord(x: int, n: nat, hi: int, lo: Word, sticky: int)
    requires Shifted(x, n, Val2(hi, lo), sticky)
    ensures Val2(hi, OrFlag(lo, sticky != 0)) == Jam(x, Pow2(n))
  {
    hide Pow2;
    LowBit(hi, lo);
  }

  lemma LowBit(hi: int, lo: Word)
    ensures Val2(hi, lo) % 2 == lo % 2
  {
    assert Val2(hi, lo) == lo + (hi * TWO63) * 2;
    DivAddMul(lo, 2, hi * TWO63);
  }

  /** A count past the last bit leaves only the flag. */
  lemma AllDropped(x: int, n: nat, c: nat)
    requires 0 <= x < Pow2(n) && n <= c
    ensures Shifted(x, c, 0, x)
  {
    hide Pow2;
    Pow2Mono(n, c);
    DivUnique(x, Pow2(c), 0, x);
  }

  lemma WideBounds()
    ensures Pow2(128) == W2 && Pow2(256) == W4
  {
    hide Pow2;
    Pow2Values();
    Pow2Add(64, 64);
    Pow2Add(128, 128);
  }

  lemma NotShifted(x: int)
    ensures Shifted(x, 0, x, 0) && Jam(x, Pow2(0)) == x
  {
  }

  // ---- The three widths --------------------------------------------------------------------

  method Frac64ShrJam(frac: Word, c: nat) returns (z: Word)
    ensures z == Jam(frac, Pow2(c))
  {
    hide Pow2, Shr, Low, ShrDouble, Jam, OrFlag, Shifted, BitOr;
    NotShifted(frac);
    if c == 0 { return frac; }
    var sticky: nat, v: Word;
    if c < 64 {
      v := ShrWord(frac, c);
      sticky := BitOr(0, ShrDouble(frac, 0, c));
      FinalShift(frac, 0, frac, 0, c, v, frac);
    } else {
      sticky, v := frac, 0;
      Pow2Values();
      AllDropped(frac, 64, c);
    }
    JamWord(frac, c, 0, v, sticky);
    z := OrFlag(v, sticky != 0);
  }

  method ShrWord(a: Word, c: nat) returns (v: Word)
    ensures v == Shr(a, c) && a == v * Pow2(c) + Low(a, c)
  {
    hide Pow2, Low, Shr;
    ShrLow(a, c);
    ShrDiv(a, c);
    DivMono(a, W - 1, Pow2(c));
    assert Shr(a, c) < W by { MulMono(1, Pow2(c), Shr(a, c)); LowLe(a, c); }
    v := Shr(a, c);
  }

  method Frac128ShrJam(hi: Word, lo: Word, count: nat) returns (z0: Word, z1: Word)
    ensures Val2(z0, z1) == Jam(Val2(hi, lo), Pow2(count))
  {
    hide Pow2, Shr, Low, ShrDouble, Jam, OrFlag, Shifted, BitOr;
    ghost var x := Val2(hi, lo);
    NotShifted(x);
    if count == 0 { return hi, lo; }
    var a0, a1, c := hi, lo, count;
    var sticky: nat := 0;
    ghost var n: nat := 0;
    if c >= 128 {
      OrZero(a0, a1);
      sticky := BitOr(a0, a1);
      WideBounds();
      AllDropped(x, 128, c);
      SameFlag(x, c, 0, x, sticky);
      a0, a1, c, n := 0, 0, 0, c;
    } else if c >= 64 {
      DropWord(x, 0, a0, a1, 0);
      sticky, a1, a0, c, n := BitOr(0, a1), a0, 0, c % 64, 64;
    }
    if c != 0 {
      var v0 := ShrWord(a0, c);
      NextWord(a0, v0, a0, a1, c);
      FinalShift(x, n, Val2(a0, a1), sticky, c, Val2(v0, ShrDouble(a0, a1, c)), a1);
      sticky := BitOr(sticky, ShrDouble(a1, 0, c));
      a0, a1 := v0, ShrDouble(a0, a1, c);
    }
    JamWord(x, count, a0, a1, sticky);
    z0, z1 := a0, OrFlag(a1, sticky != 0);
  }

  lemma SameFlag(x: int, n: nat, v: int, s: int, s': int)
    requires Shifted(x, n, v, s) && (s == 0) == (s' == 0)
    ensures Shifted(x, n, v, s')
  {
  }

  /** The word moves for bits 7 and 6 of a count below 256. */
  method MoveWords(hi: Word, hm: Word, lm: Word, lo: Word, c: nat)
    returns (a0: Word, a1: Word, a2: Word, a3: Word, sticky: nat)
    requires c < 256
    ensures Shifted(Val4(hi, hm, lm, lo), c - c % 64, Val4(a0, a1, a2, a3), sticky)
  {
    hide Pow2, Shifted, BitOr, Val4;
    ghost var x := Val4(hi, hm, lm, lo);
    NotShifted(x);
    a0, a1, a2, a3, sticky := hi, hm, lm, lo, 0;
    ghost var n: nat := 0;
    if c / 128 % 2 == 1 {
      DropTwo(x, a0, a1, a2, a3);
      sticky := BitOr(0, BitOr(a2, a3));
      a3, a2, a1, a0, n := a1, a0, 0, 0, 128;
    }
    if c / 64 % 2 == 1 {
      DropOne(x, n, a0, a1, a2, a3, sticky);
      sticky := BitOr(sticky, a3);
      a3, a2, a1, a0, n := a2, a1, a0, 0, n + 64;
    }
    CountParts(c);
  }

  lemma CountParts(c: nat)
    requires c < 256
    ensures c - c % 64 == c / 128 % 2 * 128 + c / 64 % 2 * 64
  {
  }

  lemma DropOne(x: int, n: nat, a0: Word, a1: Word, a2: Word, a3: Word, sticky: nat)
    requires Shifted(x, n, Val4(a0, a1, a2, a3), sticky)
    ensures Shifted(x, n + 64, Val4(0, a0, a1, a2), BitOr(sticky, a3))
  {
    hide Pow2, Shifted, BitOr;
    DropWord(x, n, Val3Of(a0, a1, a2), a3, sticky);
  }

  lemma DropTwo(x: int, a0: Word, a1: Word, a2: Word, a3: Word)
    requires Shifted(x, 0, Val4(a0, a1, a2, a3), 0)
    ensures Shifted(x, 128, Val4(0, 0, a0, a1), BitOr(0, BitOr(a2, a3)))
  {
    hide Pow2, Shifted, BitOr, Val4;
    DropOne(x, 0, a0, a1, a2, a3, 0);
    DropOne(x, 64, 0, a0, a1, a2, BitOr(0, a3));
    OrZero(0, a3);
    OrZero(BitOr(0, a3), a2);
    OrZero(a2, a3);
    OrZero(0, BitOr(a2, a3));
    SameFlag(x, 128, Val4(0, 0, a0, a1), BitOr(BitOr(0, a3), a2), BitOr(0, BitOr(a2, a3)));
  }

  function Val3Of(a0: int, a1: int, a2: int): int { Val2(Val2(a0, a1), a2) }

  method Frac256ShrJam(hi: Word, hm: Word, lm: Word, lo: Word, count: nat)
    returns (z0: Word, z1: Word, z2: Word, z3: Word)
    ensures Val4(z0, z1, z2, z3) == Jam(Val4(hi, hm, lm, lo), Pow2(count))
  {
    hide Pow2, Shr, Low, ShrDouble, Jam, OrFlag, Shifted, BitOr;
    ghost var x := Val4(hi, hm, lm, lo);
    NotShifted(x);
    if count == 0 { return hi, hm, lm, lo; }
    var a0, a1, a2, a3, c := hi, hm, lm, lo, count;
    var sticky: nat;
    if c >= 256 {
      sticky := BitOr(BitOr(BitOr(a0, a1), a2), a3);
      OrZero(a0, a1);
      OrZero(BitOr(a0, a1), a2);
      OrZero(BitOr(BitOr(a0, a1), a2), a3);
      WideBounds();
      AllDropped(x, 256, c);
      SameFlag(x, c, 0, x, sticky);
      a0, a1, a2, a3, c := 0, 0, 0, 0, 0;
    } else {
      a0, a1, a2, a3, sticky := MoveWords(a0, a1, a2, a3, c);
      c := c % 64;
    }
    if c != 0 {
      var v0 := ShrWord(a0, c);
      NextWord(a0, v0, a0, a1, c);
      ghost var y1 := Val2(v0, ShrDouble(a0, a1, c));
      NextWord(Val2(a0, a1), y1, a1, a2, c);
      ghost var y2 := Val2(y1, ShrDouble(a1, a2, c));
      NextWord(Val3Of(a0, a1, a2), y2, a2, a3, c);
      FinalShift(x, count - c, Val4(a0, a1, a2, a3), sticky, c, Val2(y2, ShrDouble(a2, a3, c)), a3);
      sticky := BitOr(sticky, ShrDouble(a3, 0, c));
      a3, a2, a1, a0 := ShrDouble(a2, a3, c), ShrDouble(a1, a2, c), ShrDouble(a0, a1, c), v0;
    }
    JamWord(x, count, Val3Of(a0, a1, a2), a3, sticky);
    z0, z1, z2, z3 := a0, a1, a2, OrFlag(a3, sticky != 0);
  }
}
