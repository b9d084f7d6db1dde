/**
 Little-endian numbers in bytes.
 */
module LittleEndian {
  import opened Pages

  function Le(v: nat, n: nat): (r: seq<Byte>)
    ensures |r| == n
    decreases n
  {
    if n == 0 then [] else [v % 256] + Le(v / 256, n - 1)
  }

  function LeValue(b: seq<Byte>): nat
    decreases |b|
  {
    if b == [] then 0 else b[0] + 256 * LeValue(b[1..])
  }

  function Power256(n: nat): nat { if n == 0 then 1 else 256 * Power256(n - 1) }

  lemma {:induction false} LeRoundTrip(v: nat, n: nat)
    requires v < Power256(n)
    ensures LeValue(Le(v, n)) == v
    decreases n
  {
    if n > 0 {
      LeRoundTrip(v / 256, n - 1);
      assert Le(v, n)[1..] == Le(v / 256, n - 1);
    }
  }

  lemma {:induction false} LeBound(b: seq<Byte>)
    ensures LeValue(b) < Power256(|b|)
    decreases |b|
  {
    if b != [] { LeBound(b[1..]); }
  }

  lemma {:induction false} LeInverse(b: seq<Byte>)
    ensures Le(LeValue(b), |b|) == b
    decreases |b|
  {
    if b != [] {
      LeInverse(b[1..]);
      assert LeValue(b) % 256 == b[0] && LeValue(b) / 256 == LeValue(b[1..]);
    }
  }

  lemma {:induction false} ZeroValue(b: seq<Byte>)
    requires forall i :: 0 <= i < |b| ==> b[i] == 0
    ensures LeValue(b) == 0
    decreases |b|
  {
    if b != [] { ZeroValue(b[1..]); }
  }
}
