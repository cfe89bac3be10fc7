/**
 * The greatest common divisor and least common multiple that 2023 day 8
 * folds over the lengths of the ghosts' orbits. `gcd` returns early when
 * both inputs are equal, swaps them so that the first is the larger, and
 * then runs Euclid's remainder loop; `lcm` is `a * b / gcd(a, b)`.
 */
module Orbits {
  import opened Common
  import opened Arith

  /** Euclid's remainder loop from `(a, b)`. */
  function Euclid(a: nat, b: nat): nat
    decreases b
  {
    if b == 0 then a else Euclid(b, a % b)
  }

  /** The value `gcd(a, b)` computes. */
  function GcdSpec(a: nat, b: nat): nat
  {
    if a == b then a
    else if b > a then Euclid(b, a)
    else Euclid(a, b)
  }

  /** The divisors of what Euclid's loop returns are exactly the common divisors of its inputs. */
  lemma {:induction false} EuclidDivisors(a: nat, b: nat, d: int)
    ensures Divides(d, Euclid(a, b)) <==> Divides(d, a) && Divides(d, b)
    decreases b
  {
    if b == 0 {
      DividesTrivial(d);
    } else {
      EuclidDivisors(b, a % b, d);
      assert a % b == a - (a / b) * b;
      CommonDivisorsStep(d, a, b, a / b);
    }
  }

  /**
   * `gcd(a, b)` is the greatest common divisor: it divides both inputs and
   * every common divisor divides it.
   */
  lemma GcdIsGreatestCommonDivisor(a: nat, b: nat, d: int)
    ensures Divides(GcdSpec(a, b), a) && Divides(GcdSpec(a, b), b)
    ensures Divides(d, a) && Divides(d, b) ==> Divides(d, GcdSpec(a, b))
  {
    var g := GcdSpec(a, b);
    DividesTrivial(g);
    if a == b {
    } else if b > a {
      EuclidDivisors(b, a, d);
      EuclidDivisors(b, a, g);
    } else {
      EuclidDivisors(a, b, d);
      EuclidDivisors(a, b, g);
    }
  }

  /** Euclid's loop never returns more than the larger input, and zero only from two zeros. */
  lemma {:induction false} EuclidBounds(a: nat, b: nat)
    requires b <= a
    ensures Euclid(a, b) <= a
    ensures Euclid(a, b) == 0 <==> a == 0
    decreases b
  {
    if b != 0 {
      EuclidBounds(b, a % b);
    }
  }

  /** `gcd(a, a) = a`, `gcd(a, 0) = gcd(0, a) = a`, the order of the inputs does not matter, and the result is 0 only for two zeros. */
  lemma GcdProperties(a: nat, b: nat)
    ensures GcdSpec(a, a) == a
    ensures GcdSpec(a, 0) == a && GcdSpec(0, a) == a
    ensures GcdSpec(a, b) == GcdSpec(b, a)
    ensures GcdSpec(a, b) == 0 <==> a == 0 && b == 0
  {
    if a != 0 {
      assert Euclid(0, a % a) == 0;
    }
    if a < b {
      EuclidBounds(b, a);
    } else {
      EuclidBounds(a, b);
    }
  }

  /** `gcd`: swap so that the first input is the larger, then repeat the remainder step until it reaches zero. */
  method Gcd(a0: nat, b0: nat) returns (r: nat)
    ensures r == GcdSpec(a0, b0)
  {
    var a, b := a0, b0;
    if a == b {
      return a;
    }
    if b > a {
      a, b := b, a;
    }
    while b != 0
      invariant Euclid(a, b) == GcdSpec(a0, b0)
      decreases b
    {
      var rmdr := a % b;
      a := b;
      b := rmdr;
    }
    return a;
  }

  /** `lcm(a, b) = a * b / gcd(a, b)`; None where the division by a zero gcd panics. */
  function Lcm(a: nat, b: nat): (r: Option<nat>)
    ensures r.Some? <==> a != 0 || b != 0
  {
    GcdProperties(a, b);
    var g := GcdSpec(a, b);
    if g == 0 then None else Some(a * b / g)
  }

  /** The least common multiple is a common multiple, and multiplied by the gcd it gives `a * b`. */
  lemma LcmIsCommonMultiple(a: nat, b: nat)
    requires a != 0 || b != 0
    ensures Divides(a, Lcm(a, b).value) && Divides(b, Lcm(a, b).value)
    ensures Lcm(a, b).value * GcdSpec(a, b) == a * b
  {
    GcdProperties(a, b);
    GcdIsGreatestCommonDivisor(a, b, 0);
    var g := GcdSpec(a, b);
    var ka :| ka * g == a;
    var kb :| kb * g == b;
    var r := Lcm(a, b).value;
    calc {
      a * b;
      (ka * g) * b;
      (ka * b) * g;
    }
    DivideMultiple(ka * b, g);
    assert r == ka * b;
    calc {
      ka * b;
      ka * (kb * g);
      kb * (ka * g);
      kb * a;
    }
    assert ka * b == r && kb * a == r;
  }
}
