/** Numbers and finite sets: minima, powers of two, quotients, pigeonholes. */
module Arith {
  function Min(a: nat, b: nat): nat {
    if a <= b then a else b
  }

  function Pow2(n: nat): (r: nat)
    ensures r >= 1
  {
    if n == 0 then 1 else 2 * Pow2(n - 1)
  }

  lemma {:induction false} Pow2Sum(a: nat, b: nat)
    ensures Pow2(a + b) == Pow2(a) * Pow2(b)
  {
    if a > 0 {
      Pow2Sum(a - 1, b);
      assert 2 * (Pow2(a - 1) * Pow2(b)) == 2 * Pow2(a - 1) * Pow2(b);
    }
  }

  lemma QuotRem(q: nat, c: nat)
    requires c > 0
    ensures q == c * (q / c) + q % c && 0 <= q % c < c
  {
  }

  lemma DivNat(a: nat, c: nat)
    requires c > 0
    ensures a / c >= 0
  {
  }

  lemma MulMono(c: nat, x: nat, y: nat)
    ensures x <= y ==> c * x <= c * y
  {
    assert x <= y ==> 0 <= c * (y - x);
  }

  lemma DivMono(a: nat, b: nat, c: nat)
    requires a <= b && c > 0
    ensures a / c <= b / c
  {
    var x, y := a / c, b / c;
    QuotRem(a, c);
    QuotRem(b, c);
    MulMono(c, y + 1, x);
  }

  function Below(n: nat): (s: set<nat>)
    ensures |s| == n && forall v: nat :: v in s <==> v < n
  {
    if n == 0 then {}
    else
      var p := Below(n - 1);
      assert n - 1 !in p;
      p + {n - 1}
  }

  /** Distinct members of a set are at most as many as it has. */
  lemma {:induction false} DistinctFit(s: seq<nat>, values: set<nat>)
    requires forall k | 0 <= k < |s| :: s[k] in values
    requires forall j, k | 0 <= j < k < |s| :: s[j] != s[k]
    ensures |s| <= |values|
  {
    if s != [] {
      DistinctFit(s[..|s| - 1], values - {s[|s| - 1]});
    }
  }
}
