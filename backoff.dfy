/**
 * The pause between two probe rounds of a node (pool/pool.go:192-200,
 * used at pool/pool.go:124).
 *
 * The source multiplies a base of 3 seconds by 5 / 3 once per `ratio`
 * step, but Go evaluates the untyped constant `5 / 3` as the integer 1, so
 * the pause never grows.  SlowAsWritten models that code; Slow is the
 * escalating pause the loop evidently intends, and is the one the probe
 * round uses.
 */
module Backoff {

  /** `slow(ratio)` as written: every factor is the integer quotient 5 / 3. */
  method SlowAsWritten(ratio: int) returns (seconds: int)
    ensures seconds == 3
  {
    var result := 3;
    var i := 0;
    while ratio > i
      invariant result == 3
      decreases ratio - i
    {
      result := result * (5 / 3);
      i := i + 1;
    }
    seconds := result;
  }

  function Pow(b: nat, n: nat): (p: nat)
    requires 1 <= b
    ensures 1 <= p
  {
    if n == 0 then 1 else b * Pow(b, n - 1)
  }

  /** The intended pause, in whole seconds: 3 * (5/3)^ratio, truncated. */
  function Escalated(ratio: nat): nat
  {
    3 * Pow(5, ratio) / Pow(3, ratio)
  }

  /**
   * The intended `slow(ratio)`: the loop of the source with the factor 5/3
   * kept exact as a numerator and a denominator, truncated at the end as
   * the conversion to a duration does.
   */
  method Slow(ratio: nat) returns (seconds: nat)
    ensures seconds == Escalated(ratio)
  {
    var num, den := 3, 1;
    var i := 0;
    while i < ratio
      invariant i <= ratio
      invariant num == 3 * Pow(5, i) && den == Pow(3, i)
    {
      num, den := num * 5, den * 3;
      i := i + 1;
    }
    seconds := num / den;
  }

  /** The pause starts at the 3-second base. */
  lemma EscalatedBase()
    ensures Escalated(0) == 3
  {
  }

  /** Every further step lengthens the pause by at least two seconds. */
  lemma EscalatedGrows(ratio: nat)
    ensures Escalated(ratio + 1) >= Escalated(ratio) + 2
  {
    var a, b := 3 * Pow(5, ratio), Pow(3, ratio);
    var q := a / b;
    PowDominates(ratio);
    assert a == q * b + a % b && 0 <= a % b < b;
    DivisionAtLeast(a, b, 3);
    assert 5 * a >= 3 * b * (q + 2) by {
      assert a >= q * b;
      assert 5 * a == 3 * a + 2 * a;
      assert 3 * a >= 3 * (q * b);
      assert 2 * a >= 2 * (3 * b);
    }
    assert Escalated(ratio + 1) == (5 * a) / (3 * b);
    DivisionAtLeast(5 * a, 3 * b, q + 2);
  }

  /** Growth is cumulative: a longer failure streak never waits less. */
  lemma {:induction false} EscalatedMonotone(r1: nat, r2: nat)
    requires r1 <= r2
    ensures Escalated(r1) + 2 * (r2 - r1) <= Escalated(r2)
    decreases r2 - r1
  {
    if r1 < r2 {
      EscalatedGrows(r1);
      EscalatedMonotone(r1 + 1, r2);
    }
  }

  lemma {:induction false} PowDominates(n: nat)
    ensures Pow(3, n) <= Pow(5, n)
  {
    if n > 0 {
      PowDominates(n - 1);
    }
  }

  lemma DivisionAtLeast(x: int, d: int, k: int)
    requires 0 < d && k * d <= x
    ensures k <= x / d
  {
    var q := x / d;
    assert x < (q + 1) * d;
    CancelFactor(k, q + 1, d);
  }

  lemma CancelFactor(a: int, b: int, d: int)
    requires 0 < d && a * d < b * d
    ensures a < b
  {
  }
}
