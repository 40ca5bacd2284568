/** Modular inversion as GMP's `mpz_invert` performs it: an extended
    Euclidean gcd, failing when the gcd is not 1. */
module Modular {
  import opened Arith

  datatype Option<T> = None | Some(value: T)

  /** `t` is an inverse of `s` modulo `n`. */
  predicate IsInverse(s: int, t: int, n: nat)
    requires n > 0
  {
    (s * t) % n == 1 % n
  }

  /** `s` has an inverse modulo `n`. */
  ghost predicate Invertible(s: int, n: nat)
    requires n > 0
  {
    exists t :: IsInverse(s, t, n)
  }

  /** `d` (positive) divides `k` times anything it divides. */
  lemma DividesMul(d: int, k: int, m: int)
    requires d > 0 && k % d == 0
    ensures (k * m) % d == 0
  {
    ModMulLeft(k, m, d);
  }

  /** A positive common divisor of `u` and `v` divides `u - v * q`. */
  lemma DividesCombination(d: int, u: int, v: int, q: int)
    requires d > 0 && u % d == 0 && v % d == 0
    ensures (u - v * q) % d == 0
  {
    DividesMul(d, v, q);
    ModSub(u, v * q, d);
    assert 0 - 0 == 0;
    ModOfMod(0, d);
  }

  /** Extended Euclid, as `mpz_gcdext`: `g == gcd(a, b)` with Bezout
      coefficients `x`, `y`. */
  function ExtGcd(a: nat, b: nat): (r: (nat, int, int))
    ensures r.0 == a * r.1 + b * r.2
    ensures a > 0 || b > 0 ==> r.0 > 0 && a % r.0 == 0 && b % r.0 == 0
    decreases b
  {
    if b == 0 then
      (a, 1, 0)
    else
      var r' := ExtGcd(b, a % b);
      var g, x, y := r'.0, r'.1, r'.2;
      BezoutStep(a, b, g, x, y);
      (g, y, x - (a / b) * y)
  }

  lemma BezoutStep(a: nat, b: nat, g: nat, x: int, y: int)
    requires b > 0
    requires g == b * x + (a % b) * y
    requires g > 0 && b % g == 0 && (a % b) % g == 0
    ensures g == a * y + b * (x - (a / b) * y)
    ensures a % g == 0
  {
    var q := a / b;
    assert a == b * q + a % b;
    assert a * y == b * q * y + (a % b) * y;
    assert b * (x - q * y) == b * x - b * q * y;
    DividesCombination(g, a % b, b, -q);
    assert a % b - b * (-q) == a;
  }

  /** If the gcd of `s` and `n` is not 1 then `s` has no inverse. */
  lemma NoInverseUnlessCoprime(s: nat, n: nat, g: nat, t: int)
    requires n > 0 && g > 0 && s % g == 0 && n % g == 0
    requires IsInverse(s, t, n)
    ensures g == 1
  {
    var c := s * t;
    DividesMul(g, s, t);
    var q := c / n;
    assert c == n * q + c % n;
    DividesCombination(g, c, n, q);
    assert c - n * q == c % n;
    if n == 1 {
      assert 1 % g == 0;
    } else {
      DivModUnique(1, n, 0, 1);
      assert 1 % g == 0;
    }
    if g > 1 {
      DivModUnique(1, g, 0, 1);
    }
  }

  /** `mpz_invert(s, n)`: the inverse of `s` modulo `n` in `[0, n)`, or
      `None` exactly when no inverse exists. */
  function Invert(s: int, n: nat): (r: Option<nat>)
    requires n > 0
    ensures r.Some? ==> r.value < n && IsInverse(s, r.value, n)
    ensures r.None? ==> forall t :: !IsInverse(s, t, n)
  {
    var s': nat := s % n;
    var e := ExtGcd(s', n);
    if e.0 == 1 then
      InverseFromBezout(s, n, e.1, e.2);
      Some(e.1 % n)
    else
      NoInverseFor(s, n, e.0);
      None
  }

  lemma InverseFromBezout(s: int, n: nat, x: int, y: int)
    requires n > 0 && 1 == (s % n) * x + n * y
    ensures IsInverse(s, x % n, n)
  {
    ModAddMultiple(y, (s % n) * x, n);
    assert n * y + (s % n) * x == 1;
    ModOfMod(s, n);
    ModOfMod(x, n);
    ModMulCongruent(s, s % n, x % n, x, n);
  }

  lemma NoInverseFor(s: int, n: nat, g: nat)
    requires n > 0 && g != 1
    requires g == ExtGcd(s % n, n).0
    ensures forall t :: !IsInverse(s, t, n)
  {
    forall t | IsInverse(s, t, n)
      ensures false
    {
      var s': nat := s % n;
      ModOfMod(s, n);
      ModMulCongruent(s, s', t, t, n);
      NoInverseUnlessCoprime(s', n, g, t);
    }
  }
}
