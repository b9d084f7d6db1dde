/**
 Correct rounding, apart from any format: which multiple of a quantum an exact value goes to
 in each of the five rounding modes (section 4.3 of IEEE 754-2008).
 */
module Rounding {
  import opened Words
  import opened ShrJam

  datatype Mode = NearestEven | Down | Up | ToZero | TiesAway

  /** The directed modes, by what they do to a magnitude. */
  predicate Truncates(mode: Mode, sign: bool) {
    mode == ToZero || (mode == Up && sign) || (mode == Down && !sign)
  }

  predicate RoundsAway(mode: Mode, sign: bool) {
    (mode == Up && !sign) || (mode == Down && sign)
  }

  /** n quanta q are the magnitude s rounded. */
  ghost predicate IsRounded(mode: Mode, sign: bool, s: int, q: int, n: int) {
    var err := s - n * q;
    if Truncates(mode, sign) then 0 <= err < q
    else if RoundsAway(mode, sign) then -q < err <= 0
    else
      && -q <= 2 * err <= q
      && (2 * err == q || 2 * err == -q ==> if mode == NearestEven then n % 2 == 0 else err < 0)
  }

  /** The same from the half-quantum h alone: how many halves fit, and whether they fit exactly. */
  function Rounded(mode: Mode, sign: bool, s: int, h: int): int
    requires h > 0
  {
    var k, exact := s / h, s % h == 0;
    if Truncates(mode, sign) then k / 2
    else if RoundsAway(mode, sign) then if k % 2 == 0 && exact then k / 2 else k / 2 + 1
    else if k % 2 == 0 then k / 2
    else if exact && mode == NearestEven && k / 2 % 2 == 0 then k / 2
    else k / 2 + 1
  }

  lemma RoundedIsRounded(mode: Mode, sign: bool, s: int, h: int)
    requires h > 0
    ensures IsRounded(mode, sign, s, 2 * h, Rounded(mode, sign, s, h))
  {
    var k, r, n := s / h, s % h, Rounded(mode, sign, s, h);
    assert s == k * h + r;
    assert n * (2 * h) == (2 * n) * h by { MulAssoc(n, 2, h); }
    assert 2 * n == k - 1 || 2 * n == k || 2 * n == k + 1 || 2 * n == k + 2;
    assert (k - 1) * h == k * h - h && (k + 1) * h == k * h + h && (k + 2) * h == k * h + 2 * h;
  }

  /** There is exactly one rounded value. */
  lemma RoundedUnique(mode: Mode, sign: bool, s: int, q: int, n: int, n': int)
    requires q > 0 && IsRounded(mode, sign, s, q, n) && IsRounded(mode, sign, s, q, n')
    ensures n == n'
  {
    if n < n' {
      Apart(n, n', q);
    } else if n' < n {
      Apart(n', n, q);
    }
  }

  lemma Apart(n: int, n': int, q: int)
    requires q > 0 && n < n'
    ensures n' * q >= n * q + q
    ensures n' * q == n * q + q ==> n' == n + 1
  {
    MulMono(n + 1, n', q);
    assert (n + 1) * q == n * q + q && (n + 2) * q == n * q + 2 * q;
    if n' > n + 1 { MulMono(n + 2, n', q); }
  }

  /** Rounding depends only on what JamThenDivide keeps. */
  lemma JamRounds(mode: Mode, sign: bool, s: int, d: int, h: int)
    requires d > 0 && h > 0 && h % 2 == 0
    ensures d * h > 0
    ensures Rounded(mode, sign, Jam(s, d), h) == Rounded(mode, sign, s, d * h)
  {
    JamThenDivide(s, d, h);
  }

  /** A value on the grid is its own rounding; otherwise it goes to one of its two neighbours. */
  lemma RoundedNear(mode: Mode, sign: bool, s: int, h: int)
    requires h > 0
    ensures var n := Rounded(mode, sign, s, h);
            && (s % (2 * h) == 0 <==> n * (2 * h) == s)
            && (n == s / (2 * h) || (n == s / (2 * h) + 1 && s % (2 * h) != 0))
  {
    DivideTwice(s, h, 2);
    var q, n := 2 * h, Rounded(mode, sign, s, h);
    assert h * 2 == q;
    assert s == s / q * q + s % q;
    if n * q == s { DivUnique(s, q, n, 0); }
  }
}
