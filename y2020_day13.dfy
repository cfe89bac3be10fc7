/**
 * Shuttle buses of 2020 day 13. Part 1 picks the bus with the shortest
 * wait after the earliest departure time; part 2 solves a system of
 * congruences with the Chinese remainder theorem, in Garner's mixed-radix
 * form: the digits `v` are found one modulus at a time with modular
 * inverses from the extended Euclidean algorithm, then combined.
 *
 * Integer division and remainder round towards zero as in Rust (`TDiv`,
 * `TRem`). Every panic (a zero modulus, a missing inverse, an empty
 * system, a missing bus) is a `None`.
 */
module Shuttle {
  import opened Common
  import opened Arith
  import Text

  // ---------------------------------------------------------------------
  // Extended Euclid

  /** A row `(r, s, t)` of the extended Euclidean algorithm. */
  datatype Row = Row(r: int, s: int, t: int)

  /** The row satisfies Bezout's identity `r == x * s + y * t`. */
  predicate Bezout(row: Row, x: int, y: int)
  {
    row.r == x * row.s + y * row.t
  }

  /** One step of `egcd`: subtract `q` times `cur` from `prev`, with `q` the truncated quotient. */
  function Eliminate(prev: Row, cur: Row): (next: Row)
    requires cur.r != 0
    ensures next.r == TRem(prev.r, cur.r)
    ensures Abs(next.r) < Abs(cur.r)
  {
    var q := TDiv(prev.r, cur.r);
    Row(prev.r - q * cur.r, prev.s - q * cur.s, prev.t - q * cur.t)
  }

  /** The loop of `egcd` from the two rows `prev` and `cur` (`old` and `now`). */
  function EgcdFrom(prev: Row, cur: Row): Row
    decreases Abs(cur.r)
  {
    if cur.r == 0 then prev else EgcdFrom(cur, Eliminate(prev, cur))
  }

  /** The triple `egcd(x, y)` returns. */
  function EgcdSpec(x: int, y: int): Row
  {
    EgcdFrom(Row(x, 1, 0), Row(y, 0, 1))
  }

  /** One elimination step keeps Bezout's identity. */
  lemma BezoutStep(prev: Row, cur: Row, q: int, x: int, y: int)
    requires Bezout(prev, x, y) && Bezout(cur, x, y)
    ensures Bezout(Row(prev.r - q * cur.r, prev.s - q * cur.s, prev.t - q * cur.t), x, y)
  {
    calc {
      prev.r - q * cur.r;
      x * prev.s + y * prev.t - q * (x * cur.s + y * cur.t);
      x * prev.s + y * prev.t - x * (q * cur.s) - y * (q * cur.t);
      x * (prev.s - q * cur.s) + y * (prev.t - q * cur.t);
    }
  }

  /** The loop keeps Bezout's identity in both rows, so the result satisfies it. */
  lemma {:induction false} EgcdFromBezout(prev: Row, cur: Row, x: int, y: int)
    requires Bezout(prev, x, y) && Bezout(cur, x, y)
    ensures Bezout(EgcdFrom(prev, cur), x, y)
    decreases Abs(cur.r)
  {
    if cur.r != 0 {
      BezoutStep(prev, cur, TDiv(prev.r, cur.r), x, y);
      EgcdFromBezout(cur, Eliminate(prev, cur), x, y);
    }
  }

  /** The loop keeps the common divisors of the two remainders. */
  lemma {:induction false} EgcdFromDivisors(prev: Row, cur: Row, d: int)
    ensures Divides(d, EgcdFrom(prev, cur).r) <==> Divides(d, prev.r) && Divides(d, cur.r)
    decreases Abs(cur.r)
  {
    if cur.r == 0 {
      DividesTrivial(d);
    } else {
      CommonDivisorsStep(d, prev.r, cur.r, TDiv(prev.r, cur.r));
      EgcdFromDivisors(cur, Eliminate(prev, cur), d);
    }
  }

  /** From non-negative remainders the loop returns a non-negative one. */
  lemma {:induction false} EgcdFromNonNegative(prev: Row, cur: Row)
    requires prev.r >= 0 && cur.r >= 0
    ensures EgcdFrom(prev, cur).r >= 0
    decreases Abs(cur.r)
  {
    if cur.r != 0 {
      EgcdFromNonNegative(cur, Eliminate(prev, cur));
    }
  }

  /**
   * `egcd(x, y)` returns `(g, s, t)` with `x * s + y * t == g`, where the
   * divisors of `g` are exactly the common divisors of `x` and `y`; for
   * non-negative inputs `g` is therefore the greatest common divisor.
   */
  lemma EgcdCorrect(x: int, y: int, d: int)
    ensures Bezout(EgcdSpec(x, y), x, y)
    ensures Divides(d, EgcdSpec(x, y).r) <==> Divides(d, x) && Divides(d, y)
    ensures x >= 0 && y >= 0 ==> EgcdSpec(x, y).r >= 0
  {
    EgcdFromBezout(Row(x, 1, 0), Row(y, 0, 1), x, y);
    EgcdFromDivisors(Row(x, 1, 0), Row(y, 0, 1), d);
    if x >= 0 && y >= 0 {
      EgcdFromNonNegative(Row(x, 1, 0), Row(y, 0, 1));
    }
  }

  /** `egcd`: the loop over the two rows, with truncating division. */
  method Egcd(x: int, y: int) returns (g: int, s: int, t: int)
    ensures Row(g, s, t) == EgcdSpec(x, y)
  {
    var prev := Row(x, 1, 0);
    var cur := Row(y, 0, 1);
    while cur.r != 0
      invariant EgcdFrom(prev, cur) == EgcdSpec(x, y)
      decreases Abs(cur.r)
    {
      var next := Eliminate(prev, cur);
      prev := cur;
      cur := next;
    }
    return prev.r, prev.s, prev.t;
  }

  // ---------------------------------------------------------------------
  // Modular inverse

  /** `mod_inv(a, m)`: the Bezout coefficient of `a` when `egcd` gives 1; None where it panics. */
  function ModInvSpec(a: int, m: int): Option<int>
  {
    var row := EgcdSpec(a, m);
    if row.r == 1 then Some(row.s) else None
  }

  /**
   * An inverse exists exactly when `egcd` returns 1, and it is one:
   * `a * inv` is congruent to 1 modulo `m`. For non-negative inputs that
   * is exactly when 1 is the only positive common divisor.
   */
  lemma ModInvCorrect(a: int, m: int)
    ensures ModInvSpec(a, m).Some? <==> EgcdSpec(a, m).r == 1
    ensures ModInvSpec(a, m).Some? ==> Cong(a * ModInvSpec(a, m).value, 1, m)
  {
    var row := EgcdSpec(a, m);
    if row.r == 1 {
      EgcdFromBezout(Row(a, 1, 0), Row(m, 0, 1), a, m);
      BezoutInverse(a, row.s, m, row.t);
    }
  }

  /** From `a * s + m * t == 1`, `s` is an inverse of `a` modulo `m`. */
  lemma BezoutInverse(a: int, s: int, m: int, t: int)
    requires a * s + m * t == 1
    ensures Cong(a * s, 1, m)
  {
    assert a * s - 1 == (-t) * m;
  }

  method ModInv(a: int, m: int) returns (r: Option<int>)
    ensures r == ModInvSpec(a, m)
  {
    var g, inv, _ := Egcd(a, m);
    if g == 1 {
      return Some(inv);
    }
    return None;
  }

  // ---------------------------------------------------------------------
  // Chinese remainder theorem

  /** `m[0..i].iter().fold(1, |p, v| (p * v) % m_i)`. */
  function ProductMod(ms: seq<int>, md: int): int
    requires md != 0
  {
    if ms == [] then 1 else TRem(ProductMod(ms[..|ms| - 1], md) * ms[|ms| - 1], md)
  }

  /** `v.iter().zip(m).rev().fold(0, |t, (v_j, m_j)| ((m_j * t) + v_j) % m_i)`. */
  function HornerMod(vs: seq<int>, ms: seq<int>, md: int): int
    requires |vs| <= |ms| && md != 0
  {
    if vs == [] then 0 else TRem(ms[0] * HornerMod(vs[1..], ms[1..], md) + vs[0], md)
  }

  /** The mixed-radix number with digits `vs` and radices `ms`: `vs[0] + ms[0] * (vs[1] + ms[1] * ...)`. */
  function MixedRadix(vs: seq<int>, ms: seq<int>): int
    requires |vs| <= |ms|
  {
    if vs == [] then 0 else vs[0] + ms[0] * MixedRadix(vs[1..], ms[1..])
  }

  /** The final loop of `crt`: start from the last digit and fold `ret * m_i + v_i` downwards. */
  function Combine(vs: seq<int>, ms: seq<int>): int
    requires 1 <= |vs| <= |ms|
  {
    if |vs| == 1 then vs[0] else Combine(vs[1..], ms[1..]) * ms[0] + vs[0]
  }

  /** The digit `crt` pushes at step `i` given the digits `vs` so far; None where a step panics. */
  function Digit(u: seq<int>, m: seq<int>, vs: seq<int>): Option<int>
    requires |vs| < |u| && |vs| < |m|
  {
    var i := |vs|;
    if m[i] == 0 then None
    else match ModInvSpec(ProductMod(m[..i], m[i]), m[i])
      case None => None
      case Some(coef) =>
        var t := HornerMod(vs, m, m[i]);
        Some(TRem((u[i] - t) * coef, m[i]))
  }

  /** The first `k` digits of `crt`. */
  function Digits(u: seq<int>, m: seq<int>, k: nat): (r: Option<seq<int>>)
    requires k <= |u| && k <= |m|
    ensures r.Some? ==> |r.value| == k
  {
    if k == 0 then Some([])
    else match Digits(u, m, k - 1)
      case None => None
      case Some(vs) =>
        match Digit(u, m, vs)
        case None => None
        case Some(d) => Some(vs + [d])
  }

  function Min(a: nat, b: nat): nat { if a < b then a else b }

  /** `crt(u, m)` over the pairs of `zip(u, m)`; None where it panics. */
  function CrtSpec(u: seq<int>, m: seq<int>): Option<int>
  {
    var n := Min(|u|, |m|);
    match Digits(u, m, n)
    case None => None
    case Some(vs) => if vs == [] then None else Some(Combine(vs, m))
  }

  /** The truncated product fold is congruent to the exact product. */
  lemma {:induction false} ProductModCong(ms: seq<int>, md: int)
    requires md != 0
    ensures Cong(ProductMod(ms, md), Product(ms), md)
  {
    if ms == [] {
      CongRefl(1, md);
    } else {
      var init, last := ms[..|ms| - 1], ms[|ms| - 1];
      ProductModCong(init, md);
      CongMul(ProductMod(init, md), Product(init), last, md);
      TRemCong(ProductMod(init, md) * last, md);
      CongTrans(ProductMod(ms, md), ProductMod(init, md) * last, Product(init) * last, md);
    }
  }

  /** The truncated Horner fold is congruent to the exact mixed-radix value. */
  lemma {:induction false} HornerModCong(vs: seq<int>, ms: seq<int>, md: int)
    requires |vs| <= |ms| && md != 0
    ensures Cong(HornerMod(vs, ms, md), MixedRadix(vs, ms), md)
  {
    if vs == [] {
      CongRefl(0, md);
    } else {
      var h := HornerMod(vs[1..], ms[1..], md);
      var x := MixedRadix(vs[1..], ms[1..]);
      HornerModCong(vs[1..], ms[1..], md);
      CongMul(h, x, ms[0], md);
      assert h * ms[0] == ms[0] * h && x * ms[0] == ms[0] * x;
      CongRefl(vs[0], md);
      CongAdd(ms[0] * h, ms[0] * x, vs[0], vs[0], md);
      TRemCong(ms[0] * h + vs[0], md);
      CongTrans(HornerMod(vs, ms, md), ms[0] * h + vs[0], ms[0] * x + vs[0], md);
    }
  }

  /** The final loop computes the mixed-radix value of the digits. */
  lemma {:induction false} CombineIsMixedRadix(vs: seq<int>, ms: seq<int>)
    requires 1 <= |vs| <= |ms|
    ensures Combine(vs, ms) == MixedRadix(vs, ms)
  {
    if |vs| > 1 {
      CombineIsMixedRadix(vs[1..], ms[1..]);
    } else {
      assert vs[1..] == [];
    }
  }

  /** Splitting the digits: the low part plus the product of its radices times the high part. */
  lemma {:induction false} MixedRadixSplit(vs: seq<int>, ws: seq<int>, ms: seq<int>)
    requires |vs| + |ws| <= |ms|
    ensures MixedRadix(vs + ws, ms) == MixedRadix(vs, ms) + Product(ms[..|vs|]) * MixedRadix(ws, ms[|vs|..])
  {
    if vs == [] {
      assert vs + ws == ws;
      assert ms[..0] == [];
    } else {
      var rest := vs[1..] + ws;
      assert (vs + ws)[0] == vs[0] && (vs + ws)[1..] == rest;
      MixedRadixSplit(vs[1..], ws, ms[1..]);
      assert ms[1..][|vs[1..]|..] == ms[|vs|..];
      ProductCons(ms[..|vs|]);
      assert ms[..|vs|][1..] == ms[1..][..|vs| - 1];
      var a, b := ms[0], MixedRadix(vs[1..], ms[1..]);
      var p := Product(ms[1..][..|vs| - 1]);
      var h := MixedRadix(ws, ms[|vs|..]);
      assert MixedRadix(vs + ws, ms) == vs[0] + a * MixedRadix(rest, ms[1..]);
      assert MixedRadix(rest, ms[1..]) == b + p * h;
      Distribute(a, b, p, h);
    }
  }

  lemma Distribute(a: int, b: int, p: int, h: int)
    ensures a * (b + p * h) == a * b + (a * p) * h
  {
  }

  /** Appending a digit adds it times the product of the radices below it. */
  lemma MixedRadixAppend(vs: seq<int>, x: int, ms: seq<int>)
    requires |vs| < |ms|
    ensures MixedRadix(vs + [x], ms) == MixedRadix(vs, ms) + Product(ms[..|vs|]) * x
  {
    var rest := ms[|vs|..];
    assert MixedRadix([x], rest) == x by {
      assert [x][1..] == [];
    }
    MixedRadixSplit(vs, [x], ms);
  }

  /**
   * Garner's step: if `d ≡ (u - t) * coef`, `coef` inverts `big`, and `t ≡ h`,
   * then `h + big * d ≡ u`, all modulo `md`.
   */
  lemma GarnerStep(h: int, t: int, d: int, big: int, coef: int, u: int, md: int)
    requires Cong(d, (u - t) * coef, md)
    requires Cong(big * coef, 1, md)
    requires Cong(t, h, md)
    ensures Cong(h + big * d, u, md)
  {
    var a := (u - t) * coef;
    var b := big * coef;
    CongMul(d, a, big, md);
    CongMul(b, 1, u - t, md);
    assert a * big == b * (u - t);
    CongTrans(d * big, b * (u - t), u - t, md);
    CongSym(t, h, md);
    CongAdd(h, t, d * big, u - t, md);
    assert t + (u - t) == u && d * big == big * d;
  }

  /**
   * The digit pushed at step `i` makes the first `i + 1` digits a solution
   * of the `i`-th congruence.
   */
  lemma DigitSolves(u: seq<int>, m: seq<int>, vs: seq<int>)
    requires |vs| < |u| && |vs| < |m|
    requires Digit(u, m, vs).Some?
    ensures Cong(MixedRadix(vs + [Digit(u, m, vs).value], m), u[|vs|], m[|vs|])
  {
    var i := |vs|;
    var md := m[i];
    var p := ProductMod(m[..i], md);
    var coef := ModInvSpec(p, md).value;
    var t := HornerMod(vs, m, md);
    var d := Digit(u, m, vs).value;
    var big := Product(m[..i]);
    var h := MixedRadix(vs, m);
    assert d == TRem((u[i] - t) * coef, md);
    MixedRadixAppend(vs, d, m);
    TRemCong((u[i] - t) * coef, md);
    assert Cong(big * coef, 1, md) by {
      ModInvCorrect(p, md);
      ProductModCong(m[..i], md);
      CongSym(p, big, md);
      CongMul(big, p, coef, md);
      CongTrans(big * coef, p * coef, 1, md);
    }
    HornerModCong(vs, m, md);
    GarnerStep(h, t, d, big, coef, u[i], md);
  }

  /** Each prefix of the digits is a solution of the congruences it covers. */
  lemma {:induction false} DigitsSolve(u: seq<int>, m: seq<int>, k: nat, i: nat)
    requires k <= |u| && k <= |m|
    requires Digits(u, m, k).Some?
    requires i < k
    ensures Cong(MixedRadix(Digits(u, m, k).value[..i + 1], m), u[i], m[i])
  {
    var vs := Digits(u, m, k - 1).value;
    var full := Digits(u, m, k).value;
    if i < k - 1 {
      assert full[..i + 1] == vs[..i + 1] by {
        assert full == vs + [Digit(u, m, vs).value];
      }
      DigitsSolve(u, m, k - 1, i);
    } else {
      assert full[..i + 1] == vs + [Digit(u, m, vs).value] by {
        assert full == vs + [Digit(u, m, vs).value];
      }
      DigitSolves(u, m, vs);
    }
  }

  /**
   * `crt(u, m)` returns a solution of every congruence `r ≡ u_i (mod m_i)`
   * it covers: whenever every modular inverse it needs exists, with no
   * coprimality assumed beyond that.
   */
  lemma CrtSolves(u: seq<int>, m: seq<int>, i: nat)
    requires CrtSpec(u, m).Some?
    requires i < |u| && i < |m|
    ensures Cong(CrtSpec(u, m).value, u[i], m[i])
  {
    var n := Min(|u|, |m|);
    var vs := Digits(u, m, n).value;
    assert CrtSpec(u, m).value == Combine(vs, m);
    CombineIsMixedRadix(vs, m);
    DigitsSolve(u, m, n, i);
    HigherDigitsVanish(vs, m, i, u[i]);
  }

  /** `a` and `b` have no common divisor above 1. */
  ghost predicate Coprime(a: int, b: int)
  {
    forall d | d > 1 :: !(Divides(d, a) && Divides(d, b))
  }

  /** Every two different moduli are coprime. */
  ghost predicate PairwiseCoprime(m: seq<int>)
  {
    forall i, j | 0 <= i < |m| && 0 <= j < |m| && i != j :: Coprime(m[i], m[j])
  }

  /** A common divisor of `a` and `b` divides every combination `a * s + b * t`. */
  lemma DividesLinear(d: int, a: int, b: int, s: int, t: int)
    requires Divides(d, a) && Divides(d, b)
    ensures Divides(d, a * s + b * t)
  {
    var ka :| ka * d == a;
    var kb :| kb * d == b;
    assert (ka * s) * d == a * s && (kb * t) * d == b * t;
    assert (ka * s + kb * t) * d == a * s + b * t;
  }

  /** Only zero is a multiple of zero. */
  lemma MultipleOfZero(c: int)
    requires Divides(0, c)
    ensures c == 0
  {
    var k :| k * 0 == c;
  }

  /** The only non-negative divisor of 1 is 1. */
  lemma DivisorOfOne(g: int)
    requires g >= 0 && Divides(g, 1)
    ensures g == 1
  {
    var k :| k * g == 1;
  }

  /** When some combination of two non-negative numbers is 1, `egcd` returns 1 for them. */
  lemma EgcdOfBezoutOne(a: int, c: int, s: int, t: int)
    requires a >= 0 && c >= 0 && a * s + c * t == 1
    ensures EgcdSpec(a, c).r == 1
  {
    var g := EgcdSpec(a, c).r;
    EgcdCorrect(a, c, g);
    DividesTrivial(g);
    DividesLinear(g, a, c, s, t);
    DivisorOfOne(g);
  }

  /** A non-negative number coprime to a positive one has a combination with it equal to 1. */
  lemma CoprimeBezout(a: int, c: int) returns (s: int, t: int)
    requires a >= 0 && c > 0 && Coprime(a, c)
    ensures a * s + c * t == 1
  {
    var row := EgcdSpec(a, c);
    EgcdCorrect(a, c, row.r);
    DividesTrivial(row.r);
    if row.r == 0 {
      MultipleOfZero(c);
    }
    assert !(Divides(row.r, a) && Divides(row.r, c)) || row.r <= 1;
    s, t := row.s, row.t;
  }

  /** Multiplying two combinations equal to 1 gives one for the product. */
  lemma MulBezout(p: int, x: int, c: int, s1: int, t1: int, s2: int, t2: int)
    requires p * s1 + c * t1 == 1 && x * s2 + c * t2 == 1
    ensures (p * x) * (s1 * s2) + c * (t1 * x * s2 + p * s1 * t2 + c * t1 * t2) == 1
  {
    var a, b, e, f := p * s1, c * t1, x * s2, c * t2;
    assert (a + b) * (e + f) == 1;
    assert (a + b) * (e + f) == a * e + a * f + b * e + b * f;
    assert (p * x) * (s1 * s2) == a * e;
    assert c * (t1 * x * s2) == b * e;
    assert c * (p * s1 * t2) == a * f;
    assert c * (c * t1 * t2) == b * f;
  }

  /** A product of non-negative numbers each coprime to `c` has a combination with `c` equal to 1. */
  lemma {:induction false} ProductBezout(ms: seq<int>, c: int) returns (s: int, t: int)
    requires c > 0 && forall j | 0 <= j < |ms| :: ms[j] >= 0 && Coprime(ms[j], c)
    ensures Product(ms) * s + c * t == 1
  {
    if ms == [] {
      s, t := 1, 0;
    } else {
      var init, x := ms[..|ms| - 1], ms[|ms| - 1];
      var s1, t1 := ProductBezout(init, c);
      var s2, t2 := CoprimeBezout(x, c);
      MulBezout(Product(init), x, c, s1, t1, s2, t2);
      s, t := s1 * s2, t1 * x * s2 + Product(init) * s1 * t2 + c * t1 * t2;
    }
  }

  /** The truncated product fold of non-negative numbers is non-negative. */
  lemma {:induction false} ProductModNonNegative(ms: seq<int>, md: int)
    requires md > 0 && forall j | 0 <= j < |ms| :: ms[j] >= 0
    ensures ProductMod(ms, md) >= 0
  {
    if ms != [] {
      ProductModNonNegative(ms[..|ms| - 1], md);
      ProductOfNats(ProductMod(ms[..|ms| - 1], md), ms[|ms| - 1]);
    }
  }

  /** The product of the moduli before `m[i]` has a combination with `m[i]` equal to 1. */
  lemma EarlierProductBezout(m: seq<int>, i: nat) returns (s: int, t: int)
    requires i < |m| && (forall j | 0 <= j < |m| :: m[j] > 0) && PairwiseCoprime(m)
    ensures Product(m[..i]) * s + m[i] * t == 1
  {
    var low := m[..i];
    assert forall j | 0 <= j < |low| :: low[j] == m[j] && Coprime(m[j], m[i]);
    s, t := ProductBezout(low, m[i]);
  }

  /** A number congruent to one with a combination equal to 1 has one too. */
  lemma ShiftBezout(p: int, q: int, c: int, s: int, t: int, k: int)
    requires q * s + c * t == 1 && p - q == k * c
    ensures p * s + c * (t - k * s) == 1
  {
    assert p * s == q * s + (k * c) * s;
    assert (k * c) * s == c * (k * s);
  }

  /** With positive, pairwise coprime moduli every step of `crt` finds its inverse. */
  lemma DigitDefined(u: seq<int>, m: seq<int>, vs: seq<int>)
    requires |vs| < |u| && |vs| < |m|
    requires (forall j | 0 <= j < |m| :: m[j] > 0) && PairwiseCoprime(m)
    ensures Digit(u, m, vs).Some?
  {
    var i := |vs|;
    var s, t := EarlierProductBezout(m, i);
    var p := ProductMod(m[..i], m[i]);
    ProductModCong(m[..i], m[i]);
    ProductModNonNegative(m[..i], m[i]);
    var k :| p - Product(m[..i]) == k * m[i];
    ShiftBezout(p, Product(m[..i]), m[i], s, t, k);
    EgcdOfBezoutOne(p, m[i], s, t - k * s);
  }

  lemma {:induction false} DigitsDefined(u: seq<int>, m: seq<int>, k: nat)
    requires k <= |u| && k <= |m|
    requires (forall j | 0 <= j < |m| :: m[j] > 0) && PairwiseCoprime(m)
    ensures Digits(u, m, k).Some?
  {
    if k > 0 {
      DigitsDefined(u, m, k - 1);
      DigitDefined(u, m, Digits(u, m, k - 1).value);
    }
  }

  /**
   * `crt(u, m)` does not panic when the system is not empty and the moduli
   * are positive and pairwise coprime: every modular inverse it asks for
   * exists. With `CrtSolves`, it then solves every congruence.
   */
  lemma CrtDefined(u: seq<int>, m: seq<int>)
    requires u != [] && m != []
    requires (forall j | 0 <= j < |m| :: m[j] > 0) && PairwiseCoprime(m)
    ensures CrtSpec(u, m).Some?
  {
    DigitsDefined(u, m, Min(|u|, |m|));
  }

  /** The digits above position `i` are multiples of `m[i]`: they leave the residue modulo `m[i]` alone. */
  lemma HigherDigitsVanish(vs: seq<int>, m: seq<int>, i: nat, target: int)
    requires i < |vs| <= |m|
    requires Cong(MixedRadix(vs[..i + 1], m), target, m[i])
    ensures Cong(MixedRadix(vs, m), target, m[i])
  {
    SplitAfter(vs, m, i);
    AddMultiple(MixedRadix(vs[..i + 1], m), target, Product(m[..i]), MixedRadix(vs[i + 1..], m[i + 1..]), m[i]);
  }

  /** Split after digit `i`: the low digits, then the high ones scaled by every modulus up to `m[i]`. */
  lemma SplitAfter(vs: seq<int>, m: seq<int>, i: nat)
    requires i < |vs| <= |m|
    ensures MixedRadix(vs, m) ==
      MixedRadix(vs[..i + 1], m) + (Product(m[..i]) * m[i]) * MixedRadix(vs[i + 1..], m[i + 1..])
  {
    var low, high := vs[..i + 1], vs[i + 1..];
    assert low + high == vs && |low| == i + 1;
    MixedRadixSplit(low, high, m);
    var q := Product(m[..i + 1]);
    assert q == Product(m[..i]) * m[i] by {
      assert m[..i + 1][..i] == m[..i];
    }
    assert MixedRadix(vs, m) == MixedRadix(low, m) + q * MixedRadix(high, m[i + 1..]);
  }

  /** Adding a multiple of the modulus keeps a congruence. */
  lemma AddMultiple(a: int, b: int, c: int, x: int, md: int)
    requires Cong(a, b, md)
    ensures Cong(a + (c * md) * x, b, md)
  {
    var k :| a - b == k * md;
    assert a + (c * md) * x - b == (k + c * x) * md;
  }

  /** `crt`: push one digit per pair, then pop the last and fold the rest in from the top. */
  method Crt(u: seq<int>, m: seq<int>) returns (r: Option<int>)
    ensures r == CrtSpec(u, m)
  {
    var digits := PushDigits(u, m);
    if digits.None? || digits.value == [] {
      return None;
    }
    var ret := FoldDigits(digits.value, m);
    return Some(ret);
  }

  /** The first loop of `crt`: one digit per pair of `zip(u, m)`; None where a step panics. */
  method PushDigits(u: seq<int>, m: seq<int>) returns (r: Option<seq<int>>)
    ensures r == Digits(u, m, Min(|u|, |m|))
  {
    var n := Min(|u|, |m|);
    var v: seq<int> := [];
    for i := 0 to n
      invariant Digits(u, m, i) == Some(v)
    {
      var d := NextDigit(u, m, v);
      if d.None? {
        DigitsNoneStays(u, m, i + 1, n);
        return None;
      }
      v := v + [d.value];
    }
    return Some(v);
  }

  /** One step of the first loop: the inverse of the product so far, then the next digit. */
  method NextDigit(u: seq<int>, m: seq<int>, v: seq<int>) returns (d: Option<int>)
    requires |v| < |u| && |v| < |m|
    ensures d == Digit(u, m, v)
  {
    var i := |v|;
    if m[i] == 0 {
      return None;
    }
    var coef := ModInv(ProductMod(m[..i], m[i]), m[i]);
    if coef.None? {
      return None;
    }
    var t := HornerMod(v, m, m[i]);
    return Some(TRem((u[i] - t) * coef.value, m[i]));
  }

  /** The last loop of `crt`: pop the top digit, then fold `ret * m_k + v_k` downwards. */
  method FoldDigits(digits: seq<int>, m: seq<int>) returns (ret: int)
    requires 1 <= |digits| <= |m|
    ensures ret == Combine(digits, m) == MixedRadix(digits, m)
  {
    ret := digits[|digits| - 1];
    var v := digits[..|digits| - 1];
    var k := |v|;
    while k > 0
      invariant 0 <= k <= |v| && v == digits[..|digits| - 1]
      invariant ret == Combine(digits[k..], m[k..])
    {
      k := k - 1;
      assert digits[k..][1..] == digits[k + 1..];
      ret := ret * m[k] + v[k];
    }
    CombineIsMixedRadix(digits, m);
  }

  /** Once a step has panicked, later prefixes fail too. */
  lemma {:induction false} DigitsNoneStays(u: seq<int>, m: seq<int>, k: nat, n: nat)
    requires k <= n <= |u| && n <= |m|
    requires Digits(u, m, k).None?
    ensures Digits(u, m, n).None?
    decreases n - k
  {
    if k < n {
      DigitsNoneStays(u, m, k + 1, n);
    }
  }

  // ---------------------------------------------------------------------
  // The puzzle

  datatype Route = Bus(number: nat) | OutOfService

  /** `Route::from_str`: `x` is out of service, anything else must be a `usize`. */
  function ParseRoute(s: string): (r: Option<Route>)
    ensures s == "x" ==> r == Some(OutOfService)
    ensures r.Some? && r.value.Bus? ==> Text.Parse(Text.U64, s) == Some(r.value.number)
  {
    if s == "x" then Some(OutOfService)
    else match Text.Parse(Text.U64, s)
      case None => None
      case Some(n) => Some(Bus(n))
  }

  /** The bus numbers of the routes in service, in order. */
  function InService(routes: seq<Route>): (ns: seq<nat>)
    ensures |ns| <= |routes|
  {
    if routes == [] then []
    else (match routes[0] case Bus(n) => [n] case OutOfService => [])
         + InService(routes[1..])
  }

  /** A number is in service exactly when some route is the bus with that number. */
  lemma {:induction false} InServiceMembers(routes: seq<Route>)
    ensures forall n :: n in InService(routes) <==> Bus(n) in routes
  {
    if routes != [] {
      InServiceMembers(routes[1..]);
      assert routes == [routes[0]] + routes[1..];
    }
  }

  /** A multiple of `n` leaves no remainder. */
  lemma MultipleMod(k: nat, n: nat)
    requires n > 0
    ensures (k * n) % n == 0
  {
    DivideMultiple(k, n);
  }

  /** The wait from `ts` until bus `n` next departs: `n - ts % n`. */
  function Wait(ts: nat, n: nat): (w: nat)
    requires n > 0
    ensures 1 <= w <= n
    ensures (ts + w) % n == 0
  {
    var w := n - ts % n;
    assert ts == (ts / n) * n + ts % n;
    assert ts + w == (ts / n) * n + n;
    assert ts + w == (ts / n + 1) * n;
    MultipleMod(ts / n + 1, n);
    w
  }

  /**
   * Bus `k` has the least wait, and every bus listed before it waits
   * strictly longer: the one `min_by_key` picks on a tie.
   */
  predicate FirstWithLeastWait(ts: nat, buses: seq<nat>, k: nat)
    requires k < |buses| && forall i | 0 <= i < |buses| :: buses[i] > 0
  {
    (forall i | 0 <= i < |buses| :: Wait(ts, buses[k]) <= Wait(ts, buses[i])) &&
    forall j | 0 <= j < k :: Wait(ts, buses[j]) > Wait(ts, buses[k])
  }

  /** A bus after the first that waits less than the first keeps its place in the rest of the list. */
  lemma FirstWithLeastWaitTail(ts: nat, buses: seq<nat>, k: nat)
    requires |buses| >= 2 && forall i | 0 <= i < |buses| :: buses[i] > 0
    requires k < |buses| - 1 && FirstWithLeastWait(ts, buses[1..], k)
    requires Wait(ts, buses[k + 1]) < Wait(ts, buses[0])
    ensures FirstWithLeastWait(ts, buses, k + 1)
  {
    assert forall i | 1 <= i < |buses| :: buses[i] == buses[1..][i - 1];
  }

  /** `min_by_key`: the first bus with the least wait; None for no buses or a bus 0 (the `%` panics). */
  function MinWait(ts: nat, buses: seq<nat>): (r: Option<nat>)
    ensures r.Some? <==> buses != [] && forall i | 0 <= i < |buses| :: buses[i] > 0
    ensures r.Some? ==> r.value in buses && r.value > 0
    ensures r.Some? ==> forall i | 0 <= i < |buses| :: buses[i] > 0 && Wait(ts, r.value) <= Wait(ts, buses[i])
  {
    if buses == [] || buses[0] == 0 then None
    else if |buses| == 1 then Some(buses[0])
    else match MinWait(ts, buses[1..])
      case None => None
      case Some(b) =>
        assert forall i | 1 <= i < |buses| :: buses[i] == buses[1..][i - 1];
        if Wait(ts, b) < Wait(ts, buses[0]) then Some(b) else Some(buses[0])
  }

  /** On a tie `min_by_key` keeps the bus listed first. */
  lemma {:induction false} MinWaitFirst(ts: nat, buses: seq<nat>)
    ensures MinWait(ts, buses).Some? ==>
      exists k | 0 <= k < |buses| :: buses[k] == MinWait(ts, buses).value && FirstWithLeastWait(ts, buses, k)
  {
    if buses == [] || buses[0] == 0 {
    } else if |buses| == 1 {
      assert FirstWithLeastWait(ts, buses, 0);
    } else if MinWait(ts, buses[1..]).Some? {
      var b := MinWait(ts, buses[1..]).value;
      assert forall i | 1 <= i < |buses| :: buses[i] == buses[1..][i - 1];
      if Wait(ts, b) < Wait(ts, buses[0]) {
        MinWaitFirst(ts, buses[1..]);
        var k :| 0 <= k < |buses[1..]| && buses[1..][k] == b && FirstWithLeastWait(ts, buses[1..], k);
        FirstWithLeastWaitTail(ts, buses, k);
      } else {
        assert FirstWithLeastWait(ts, buses, 0);
      }
    }
  }

  /** `part1`: the chosen bus times its wait. */
  function Part1(ts: nat, routes: seq<Route>): (r: Option<nat>)
    ensures r.Some? <==> InService(routes) != [] && forall i | 0 <= i < |InService(routes)| :: InService(routes)[i] > 0
    ensures r.Some? ==> exists n | n in InService(routes) && n > 0 ::
      r.value == Wait(ts, n) * n && forall k | k in InService(routes) :: k > 0 && Wait(ts, n) <= Wait(ts, k)
    ensures r.Some? ==> var buses := InService(routes);
      exists k | 0 <= k < |buses| :: FirstWithLeastWait(ts, buses, k) && r.value == Wait(ts, buses[k]) * buses[k]
  {
    var buses := InService(routes);
    MinWaitFirst(ts, buses);
    match MinWait(ts, buses)
    case None => None
    case Some(n) =>
      var k :| 0 <= k < |buses| && buses[k] == n && FirstWithLeastWait(ts, buses, k);
      LeastOfMembers(ts, buses, n);
      ProductOfNats(Wait(ts, buses[k]), buses[k]);
      Some(Wait(ts, buses[k]) * buses[k])
  }

  /** A bus waiting no longer than any listed bus waits no longer than any member of the list. */
  lemma LeastOfMembers(ts: nat, buses: seq<nat>, n: nat)
    requires n > 0 && forall i | 0 <= i < |buses| :: buses[i] > 0 && Wait(ts, n) <= Wait(ts, buses[i])
    ensures forall b | b in buses :: b > 0 && Wait(ts, n) <= Wait(ts, b)
  {
    forall b | b in buses
      ensures b > 0 && Wait(ts, n) <= Wait(ts, b)
    {
      var i :| 0 <= i < |buses| && buses[i] == b;
    }
  }

  /** The offsets of the routes in service: their positions in the list, counted from `from`. */
  function Offsets(routes: seq<Route>, from: int): (os: seq<int>)
    ensures |os| == |InService(routes)|
  {
    if routes == [] then []
    else (match routes[0] case Bus(_) => [from] case OutOfService => [])
         + Offsets(routes[1..], from + 1)
  }

  /**
   * Offset `i` is the position in the list, counted from `from`, of the
   * `i`-th bus in service, and the offsets increase.
   */
  lemma OffsetsArePositions(routes: seq<Route>, from: int)
    ensures var os, ns := Offsets(routes, from), InService(routes);
      (forall i | 0 <= i < |os| :: from <= os[i] < from + |routes| && routes[os[i] - from] == Bus(ns[i])) &&
      (forall i, j | 0 <= i < j < |os| :: os[i] < os[j])
  {
    var os, ns := Offsets(routes, from), InService(routes);
    forall i | 0 <= i < |os|
      ensures from <= os[i] < from + |routes| && routes[os[i] - from] == Bus(ns[i])
    {
      OffsetAt(routes, from, i);
    }
    forall i, j | 0 <= i < j < |os|
      ensures os[i] < os[j]
    {
      OffsetsOrdered(routes, from, i, j);
    }
  }

  /** One offset: the position of the `i`-th bus in service. */
  lemma {:induction false} OffsetAt(routes: seq<Route>, from: int, i: nat)
    requires i < |InService(routes)|
    ensures var o := Offsets(routes, from)[i];
      from <= o < from + |routes| && routes[o - from] == Bus(InService(routes)[i])
  {
    var tail := routes[1..];
    var rest, restNs := Offsets(tail, from + 1), InService(tail);
    var os, ns := Offsets(routes, from), InService(routes);
    if routes[0].Bus? {
      assert os == [from] + rest && ns == [routes[0].number] + restNs;
      if i > 0 {
        OffsetAt(tail, from + 1, i - 1);
        assert os[i] == rest[i - 1] && ns[i] == restNs[i - 1];
        assert routes[rest[i - 1] - from] == tail[rest[i - 1] - (from + 1)];
      } else {
        assert os[0] == from && ns[0] == routes[0].number;
      }
    } else {
      assert os == rest && ns == restNs;
      OffsetAt(tail, from + 1, i);
      assert routes[rest[i] - from] == tail[rest[i] - (from + 1)];
    }
  }

  /** An earlier bus in service has a smaller offset. */
  lemma {:induction false} OffsetsOrdered(routes: seq<Route>, from: int, i: nat, j: nat)
    requires i < j < |InService(routes)|
    ensures Offsets(routes, from)[i] < Offsets(routes, from)[j]
  {
    var tail := routes[1..];
    var rest, os := Offsets(tail, from + 1), Offsets(routes, from);
    if routes[0].Bus? {
      assert os == [from] + rest && |InService(routes)| == 1 + |InService(tail)|;
      assert os[j] == rest[j - 1];
      if i > 0 {
        OffsetsOrdered(tail, from + 1, i - 1, j - 1);
        assert os[i] == rest[i - 1];
      } else {
        OffsetAt(tail, from + 1, j - 1);
      }
    } else {
      assert os == rest && InService(routes) == InService(tail);
      OffsetsOrdered(tail, from + 1, i, j);
    }
  }

  /**
   * `part2`: the absolute value of `crt(offsets, numbers)`. Taken with one
   * sign for every bus, it is congruent either to each offset or to minus
   * each offset modulo that bus's number (the latter is the timetable the
   * puzzle asks for), according to the sign of the `crt` result.
   */
  function Part2(routes: seq<Route>): (r: Option<nat>)
    ensures r.Some? ==> OneSign(r.value, Offsets(routes, 0), InService(routes))
  {
    var os, ns := Offsets(routes, 0), InService(routes);
    match CrtSpec(os, ns)
    case None => None
    case Some(r) =>
      CrtOneSign(os, ns);
      Some(Abs(r))
  }

  /**
   * Either `v ≡ os[i]` modulo `ns[i]` for every `i`, or `v + os[i] ≡ 0`
   * modulo `ns[i]` for every `i`.
   */
  ghost predicate OneSign(v: int, os: seq<int>, ns: seq<int>)
    requires |os| == |ns|
  {
    (forall i | 0 <= i < |ns| :: Cong(v, os[i], ns[i])) ||
    (forall i | 0 <= i < |ns| :: Cong(v + os[i], 0, ns[i]))
  }

  /** The absolute value of a `crt` result solves the system with one sign throughout. */
  lemma CrtOneSign(os: seq<int>, ns: seq<int>)
    requires |os| == |ns| && CrtSpec(os, ns).Some?
    ensures OneSign(Abs(CrtSpec(os, ns).value), os, ns)
  {
    var r := CrtSpec(os, ns).value;
    forall i | 0 <= i < |ns|
      ensures Cong(r, os[i], ns[i]) && Cong(-r + os[i], 0, ns[i])
    {
      CrtSolves(os, ns, i);
      NegatedCong(r, os[i], ns[i]);
    }
  }

  /** The schedule exists when some bus is in service and the bus numbers are positive and pairwise coprime. */
  lemma Part2Defined(routes: seq<Route>)
    requires InService(routes) != []
    requires (forall j | 0 <= j < |InService(routes)| :: InService(routes)[j] > 0) && PairwiseCoprime(InService(routes))
    ensures Part2(routes).Some?
  {
    CrtDefined(Offsets(routes, 0), InService(routes));
  }

  /** Negating a solution of `r ≡ o` gives a solution of `-r + o ≡ 0`. */
  lemma NegatedCong(r: int, o: int, n: int)
    requires Cong(r, o, n)
    ensures Cong(-r + o, 0, n)
  {
    var k :| r - o == k * n;
    assert -r + o - 0 == (-k) * n;
  }
}
