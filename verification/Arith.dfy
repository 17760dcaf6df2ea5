/** Division and remainder facts the address computations need. */
module Arith {

  function Quotient(n: nat, d: nat): nat
    requires d > 0
  {
    n / d
  }

  /** The greatest multiple of `d` at or below `n`. */
  function RoundDown(n: nat, d: nat): nat
    requires d > 0
  {
    Quotient(n, d) * d
  }

  lemma DivBounds(n: nat, d: nat)
    requires d > 0
    ensures n / d * d <= n < n / d * d + d
  {
  }

  lemma SmallMultiple(x: int, d: nat, r: nat)
    requires x * d == r < d
    ensures r == 0 && x == 0
  {
    assert x >= 1 ==> x * d >= d;
    assert x <= -1 ==> x * d + d <= 0;
  }

  /** The quotient and remainder are the only ones there are. */
  lemma DivUnique(n: nat, q: nat, d: nat, r: nat)
    requires n == q * d + r && r < d
    ensures n / d == q && n % d == r
  {
    DivBounds(n, d);
    var s := n % d;
    assert n == n / d * d + s;
    assert (n / d - q) * d == r - s;
    if r >= s {
      SmallMultiple(n / d - q, d, r - s);
    } else {
      assert (q - n / d) * d == s - r;
      SmallMultiple(q - n / d, d, s - r);
    }
  }

  lemma MultipleMod(q: nat, d: nat)
    requires d > 0
    ensures q * d % d == 0
  {
    DivUnique(q * d, q, d, 0);
  }

  lemma RoundDownOk(n: nat, d: nat)
    requires d > 0
    ensures RoundDown(n, d) <= n < RoundDown(n, d) + d && RoundDown(n, d) % d == 0
  {
    DivBounds(n, d);
    MultipleMod(n / d, d);
  }

  lemma ModSum(a: nat, b: nat, d: nat)
    requires d > 0 && a % d == 0 && b % d == 0
    ensures (a + b) % d == 0
  {
    DivBounds(a, d);
    DivBounds(b, d);
    assert a + b == (a / d + b / d) * d;
    MultipleMod(a / d + b / d, d);
  }

  /** A multiple of a multiple. */
  lemma ModTrans(a: nat, b: nat, d: nat)
    requires d > 0 && b > 0 && a % b == 0 && b % d == 0
    ensures a % d == 0
  {
    assert a == (a / b) * ((b / d) * d) == ((a / b) * (b / d)) * d;
    MultipleMod((a / b) * (b / d), d);
  }
}
