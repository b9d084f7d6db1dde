/**
 estimateDiv128To64: a 64-bit quotient estimate by two 32-bit digits, the first one
 corrected to be exact, the second one left at most two too large.
 */
module Estimate {
  import opened Words
  import opened Wide

  /** z is the quotient a / b or up to two more. */
  ghost predicate AtMostTwoHigh(a: int, b: int, z: int) {
    a < (z + 1) * b && (z - 2) * b <= a
  }

  /** The value that the code arrives at: an exact first digit, and a second one from the divisor's top half. */
  function Approx(a: int, b: int): int
    requires b >= TWO63
  {
    if a >= b * W then W - 1
    else
      var x := a % (b * H) / H;
      a / (b * H) * H + (if b / H * H <= x then H - 1 else x / (b / H))
  }

  /** The first digit estimate, before correction. */
  lemma FirstDigit(a0: Word, a1: Word, b: Word, b0: int, zh: int)
    requires TWO63 <= b && a0 < b && b0 == b / H
    requires if b0 * H <= a0 then zh == H - 1 else zh == a0 / b0
    ensures 0 <= zh < H
    ensures -(H * W) <= Val2(a0, a1) - b * (zh * H) < b * H
  {
    var bl := b % H;
    assert b == b0 * H + bl;
    if b0 * H <= a0 {
      assert b * ((H - 1) * H) == b * W - b * H;
    } else {
      var r := a0 % b0;
      assert a0 == zh * b0 + r;
      assert 0 <= zh < H by {
        if zh >= H { MulMono(H, zh, b0); }
        if zh < 0 { MulMono(zh, -1, b0); }
      }
      assert b * (zh * H) == zh * b0 * W + zh * bl * H by {
        assert b * zh == zh * b0 * H + zh * bl;
      }
      MulMono(bl, H, zh);
      MulMono(0, bl, zh);
      MulMono(zh, H, H);
    }
  }

  /** The second digit estimate, from the corrected remainder. */
  lemma SecondDigit(r: int, b: Word, b0: int, x: int, zl: int)
    requires TWO63 <= b && b0 == b / H && 0 <= r < b * H && x == r / H
    requires if b0 * H <= x then zl == H - 1 else zl == x / b0
    ensures 0 <= zl < H && r < (zl + 1) * b && (zl - 2) * b <= r
  {
    var bl := b % H;
    assert b == b0 * H + bl;
    if b0 * H <= x {
    } else {
      var s := x % b0;
      assert x == zl * b0 + s;
      if zl >= H { MulMono(H, zl, b0); }
      if zl < 0 { MulMono(zl, -1, b0); }
      assert (zl + 1) * b == (zl * b0 + b0) * H + (zl + 1) * bl;
      MulMono(0, zl + 1, bl);
      assert (zl - 2) * b == (zl * b0 - 2 * b0) * H + (zl - 2) * bl;
      if zl >= 2 {
        MulMono(bl, H, zl - 2);
      } else {
        MulMono(zl - 2, 0, bl);
      }
    }
  }

  /** Digits and remainder put together. */
  lemma TwoDigits(a: int, b: int, zh: int, zl: int, r: int)
    requires r == a - b * (zh * H) && r < (zl + 1) * b && (zl - 2) * b <= r
    ensures AtMostTwoHigh(a, b, zh * H + zl)
  {
    assert (zh * H + zl + 1) * b == b * (zh * H) + (zl + 1) * b;
    assert (zh * H + zl - 2) * b == b * (zh * H) + (zl - 2) * b;
  }

  method FirstGuess(a0: Word, b: Word) returns (zh: Half)
    requires TWO63 <= b && a0 < b
    ensures var b0 := b / H; if b0 * H <= a0 then zh == H - 1 else zh == a0 / b0
  {
    var b0 := b / H;
    FirstDigit(a0, 0, b, b0, if b0 * H <= a0 then H - 1 else a0 / b0);
    zh := if b0 * H <= a0 then H - 1 else a0 / b0;
  }

  /** The loop that lowers the first digit until the remainder is not negative as a signed value. */
  method CorrectFirst(a0: Word, a1: Word, b: Word, guess: Half) returns (zh: Half, rem0: Word, rem1: Word)
    requires TWO63 <= b && -(H * W) <= Val2(a0, a1) - b * (guess * H) < b * H
    ensures Val2(rem0, rem1) == Val2(a0, a1) - b * (zh * H) && 0 <= Val2(rem0, rem1) < b * H
  {
    ghost var a := Val2(a0, a1);
    zh := guess;
    var term1, term0 := Mul64(b, zh * H);
    rem0, rem1 := Sub128(a0, a1, term0, term1);
    ghost var r := a - b * (zh * H);
    while rem0 >= TWO63
      invariant r == a - b * (zh * H) && -(H * W) <= r < b * H
      invariant Val2(rem0, rem1) == if r < 0 then r + W2 else r
      decreases -r
    {
      StepDown(a, b, zh);
      zh := zh - 1;
      r := r + b * H;
      rem0, rem1 := Add128(rem0, rem1, b / H, b % H * H);
    }
  }

  lemma StepDown(a: int, b: int, zh: int)
    requires 0 <= a && b >= 1 && zh >= 0 && a - b * (zh * H) < 0
    ensures zh >= 1 && a - b * ((zh - 1) * H) == a - b * (zh * H) + b * H
  {
  }

  /** The approximation lies between the quotient and the quotient plus two; it is all ones when the
      quotient does not fit. */
  method EstimateDiv128To64(a0: Word, a1: Word, b: Word) returns (z: Word)
    requires TWO63 <= b
    ensures a0 >= b ==> z == W - 1
    ensures a0 < b ==> AtMostTwoHigh(Val2(a0, a1), b, z)
    ensures z == Approx(Val2(a0, a1), b)
  {
    assert b <= a0 <==> Val2(a0, a1) >= b * W;
    if b <= a0 {
      return W - 1;
    }
    var b0 := b / H;
    var zh: Half := FirstGuess(a0, b);
    FirstDigit(a0, a1, b, b0, zh);
    var rem0: Word, rem1: Word;
    zh, rem0, rem1 := CorrectFirst(a0, a1, b, zh);
    ghost var r := Val2(rem0, rem1);
    assert Val2(a0, a1) == zh * (b * H) + r by { MulAssoc(zh, b, H); }
    DivUnique(Val2(a0, a1), b * H, zh, r);
    var x := rem0 * H + rem1 / H;
    var zl := if b0 * H <= x then H - 1 else x / b0;
    SecondDigit(r, b, b0, x, zl);
    TwoDigits(Val2(a0, a1), b, zh, zl, r);
    z := zh * H + zl;
  }
}
