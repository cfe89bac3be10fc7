/**
 * Integer facts shared by the number-theory puzzles: divisibility,
 * congruence, and Rust's integer division and remainder, which round
 * towards zero (Dafny's own `/` and `%` are Euclidean).
 */
module Arith {

  /** `d` divides `a`. */
  ghost predicate Divides(d: int, a: int)
  {
    exists k :: k * d == a
  }

  /** `a` and `b` leave the same remainder on division by `m`. */
  ghost predicate Cong(a: int, b: int, m: int)
  {
    exists k :: a - b == k * m
  }

  function Abs(x: int): (r: nat)
    ensures r == x || r == -x
  {
    if x < 0 then -x else x
  }

  /** Rust's `a / b` for `b != 0`: the quotient rounded towards zero. */
  function TDiv(a: int, b: int): (q: int)
    requires b != 0
    ensures a >= 0 && b > 0 ==> q == a / b
  {
    if a >= 0 then (if b > 0 then a / b else -(a / -b))
    else (if b > 0 then -((-a) / b) else (-a) / (-b))
  }

  /** Rust's `a % b` for `b != 0`: takes the sign of `a`, and is smaller than `b` in magnitude. */
  function TRem(a: int, b: int): (r: int)
    requires b != 0
    ensures r == a - TDiv(a, b) * b
    ensures Abs(r) < Abs(b)
    ensures a >= 0 ==> 0 <= r
    ensures a <= 0 ==> r <= 0
    ensures a >= 0 && b > 0 ==> r == a % b
  {
    if a >= 0 && b > 0 then a % b
    else if a >= 0 then
      RemOfNegativeDivisor(a, b);
      a % (-b)
    else if b > 0 then
      RemOfNegative(a, b);
      -((-a) % b)
    else
      RemOfBothNegative(a, b);
      -((-a) % (-b))
  }

  lemma RemOfNegativeDivisor(a: int, b: int)
    requires a >= 0 && b < 0
    ensures a % (-b) == a - TDiv(a, b) * b
  {
    var c := -b;
    var q, r := a / c, a % c;
    assert a == q * c + r;
    assert TDiv(a, b) == -q;
    assert (-q) * b == q * c;
  }

  lemma RemOfNegative(a: int, b: int)
    requires a < 0 && b > 0
    ensures -((-a) % b) == a - TDiv(a, b) * b
  {
    var c := -a;
    var q, r := c / b, c % b;
    assert c == q * b + r;
    assert TDiv(a, b) == -q;
    assert (-q) * b == -(q * b);
  }

  lemma RemOfBothNegative(a: int, b: int)
    requires a < 0 && b < 0
    ensures -((-a) % (-b)) == a - TDiv(a, b) * b
  {
    var c, d := -a, -b;
    var q, r := c / d, c % d;
    assert c == q * d + r;
    assert TDiv(a, b) == q;
    assert q * b == -(q * d);
  }

  /** The truncated remainder is congruent to the number it came from. */
  lemma TRemCong(a: int, b: int)
    requires b != 0
    ensures Cong(TRem(a, b), a, b)
  {
    assert TRem(a, b) - a == (-TDiv(a, b)) * b;
  }

  lemma CongRefl(a: int, m: int)
    ensures Cong(a, a, m)
  {
    assert a - a == 0 * m;
  }

  lemma CongSym(a: int, b: int, m: int)
    requires Cong(a, b, m)
    ensures Cong(b, a, m)
  {
    var k :| a - b == k * m;
    assert b - a == (-k) * m;
  }

  lemma CongTrans(a: int, b: int, c: int, m: int)
    requires Cong(a, b, m) && Cong(b, c, m)
    ensures Cong(a, c, m)
  {
    var k :| a - b == k * m;
    var l :| b - c == l * m;
    assert a - c == (k + l) * m;
  }

  lemma CongAdd(a: int, b: int, c: int, d: int, m: int)
    requires Cong(a, b, m) && Cong(c, d, m)
    ensures Cong(a + c, b + d, m)
  {
    var k :| a - b == k * m;
    var l :| c - d == l * m;
    assert (a + c) - (b + d) == (k + l) * m;
  }

  lemma CongMul(a: int, b: int, c: int, m: int)
    requires Cong(a, b, m)
    ensures Cong(a * c, b * c, m)
  {
    var k :| a - b == k * m;
    assert a * c - b * c == (a - b) * c;
    assert a * c - b * c == (k * c) * m;
  }

  /** A multiple of `m` is congruent to zero. */
  lemma CongMultiple(k: int, m: int)
    ensures Cong(k * m, 0, m)
  {
    assert k * m - 0 == k * m;
  }

  /** A common divisor of `a` and `b` divides `a - q * b`. */
  lemma DividesCombination(d: int, a: int, b: int, q: int)
    requires Divides(d, a) && Divides(d, b)
    ensures Divides(d, a - q * b)
  {
    var ka :| ka * d == a;
    var kb :| kb * d == b;
    assert (ka - q * kb) * d == ka * d - q * (kb * d);
  }

  /** Every number divides zero, and every number divides itself. */
  lemma DividesTrivial(d: int)
    ensures Divides(d, 0) && Divides(d, d)
  {
    assert 0 * d == 0 && 1 * d == d;
  }

  /**
   * The common divisors of `a` and `b` are those of `b` and `a - q * b`:
   * the step that Euclid's algorithm repeats.
   */
  lemma CommonDivisorsStep(d: int, a: int, b: int, q: int)
    ensures Divides(d, a) && Divides(d, b) <==> Divides(d, b) && Divides(d, a - q * b)
  {
    if Divides(d, a) && Divides(d, b) {
      DividesCombination(d, a, b, q);
    }
    if Divides(d, b) && Divides(d, a - q * b) {
      DividesCombination(d, a - q * b, b, -q);
      assert (a - q * b) - (-q) * b == a;
    }
  }

  /** Dividing a multiple of `g` by `g` gives back the factor. */
  lemma DivideMultiple(k: int, g: int)
    requires g > 0
    ensures (k * g) / g == k
  {
    var q, r := (k * g) / g, (k * g) % g;
    assert k * g == q * g + r && 0 <= r < g;
    assert (k - q) * g == r;
    if k - q > 0 {
      AtLeastOnce(k - q, g);
    } else if k - q < 0 {
      AtLeastOnce(q - k, g);
    }
  }

  /** A positive multiple of a positive number is at least that number. */
  lemma AtLeastOnce(x: int, g: int)
    requires x >= 1 && g > 0
    ensures x * g >= g
  {
  }
}
