/** Integer facts the model needs: a recursive power function and the
    rules for reducing sums and products modulo a positive modulus.
    Dafny's `%` on `int` is Euclidean, which is what GMP's `mpz_mod`
    computes, so no sign adjustment is needed anywhere in the model. */
module Arith {

  /** `base` raised to `e`, over the unbounded naturals. */
  function Pow(base: nat, e: nat): nat
    decreases e
  {
    if e == 0 then 1 else base * Pow(base, e - 1)
  }

  lemma {:induction false} PowAdd(base: nat, e1: nat, e2: nat)
    ensures Pow(base, e1 + e2) == Pow(base, e1) * Pow(base, e2)
    decreases e1
  {
    if e1 > 0 {
      PowAdd(base, e1 - 1, e2);
      calc {
        Pow(base, e1 + e2);
        base * Pow(base, e1 - 1 + e2);
        base * (Pow(base, e1 - 1) * Pow(base, e2));
        (base * Pow(base, e1 - 1)) * Pow(base, e2);
      }
    }
  }

  lemma {:induction false} PowMul(base: nat, e1: nat, e2: nat)
    ensures Pow(base, e1 * e2) == Pow(Pow(base, e1), e2)
    decreases e2
  {
    if e2 > 0 {
      PowMul(base, e1, e2 - 1);
      calc {
        Pow(base, e1 * e2);
        { assert e1 * e2 == e1 + e1 * (e2 - 1); PowAdd(base, e1, e1 * (e2 - 1)); }
        Pow(base, e1) * Pow(base, e1 * (e2 - 1));
        Pow(base, e1) * Pow(Pow(base, e1), e2 - 1);
      }
    }
  }

  lemma MulRearrange(w: int, x: int, y: int, z: int)
    ensures (w * x) * (y * z) == (w * y) * (x * z)
  {
  }

  lemma MulSubDistrib(k: int, x: int, y: int)
    ensures k * (x - y) == k * x - k * y
  {
  }

  lemma MulAtLeast(d: int, k: int)
    requires d > 0 && k >= 1
    ensures d * k >= d
  {
    assert d * k == d + d * (k - 1);
  }

  /** A quotient and a remainder in range determine `%` and `/`. */
  lemma DivModUnique(n: int, d: int, q: int, r: int)
    requires d > 0 && 0 <= r < d && n == d * q + r
    ensures n % d == r && n / d == q
  {
    var q', r' := n / d, n % d;
    assert n == d * q' + r';
    assert d * (q - q') == r' - r;
    if q - q' >= 1 {
      MulAtLeast(d, q - q');
    } else if q' - q >= 1 {
      MulAtLeast(d, q' - q);
    }
  }

  lemma ModAddMultiple(k: int, z: int, d: int)
    requires d > 0
    ensures (d * k + z) % d == z % d
  {
    DivModUnique(d * k + z, d, k + z / d, z % d);
  }

  lemma ModMulLeft(x: int, y: int, d: int)
    requires d > 0
    ensures ((x % d) * y) % d == (x * y) % d
  {
    var q := x / d;
    assert x * y == d * (q * y) + (x % d) * y;
    ModAddMultiple(q * y, (x % d) * y, d);
  }

  /** Both factors of a product may be reduced before multiplying. */
  lemma ModMul(x: int, y: int, d: int)
    requires d > 0
    ensures ((x % d) * (y % d)) % d == (x * y) % d
  {
    ModMulLeft(x, y % d, d);
    ModMulLeft(y, x, d);
    assert x * (y % d) == (y % d) * x && x * y == y * x;
  }

  lemma ModSub(x: int, y: int, d: int)
    requires d > 0
    ensures ((x % d) - (y % d)) % d == (x - y) % d
  {
    var qx, qy := x / d, y / d;
    assert x - y == d * (qx - qy) + ((x % d) - (y % d));
    ModAddMultiple(qx - qy, (x % d) - (y % d), d);
  }

  lemma ModAdd(x: int, y: int, d: int)
    requires d > 0
    ensures ((x % d) + (y % d)) % d == (x + y) % d
  {
    var qx, qy := x / d, y / d;
    assert x + y == d * (qx + qy) + ((x % d) + (y % d));
    ModAddMultiple(qx + qy, (x % d) + (y % d), d);
  }

  /** Congruent factors give congruent products. */
  lemma ModMulCongruent(x: int, x': int, y: int, y': int, d: int)
    requires d > 0 && x % d == x' % d && y % d == y' % d
    ensures (x * y) % d == (x' * y') % d
  {
    ModMul(x, y, d);
    ModMul(x', y', d);
  }

  /** Reducing the base of a power does not change its residue. */
  lemma {:induction false} PowMod(base: nat, e: nat, d: nat)
    requires d > 0
    ensures Pow(base % d, e) % d == Pow(base, e) % d
    decreases e
  {
    if e > 0 {
      PowMod(base, e - 1, d);
      var b': nat := base % d;
      var u, v := Pow(b', e - 1), Pow(base, e - 1);
      assert Pow(b', e) == b' * u;
      assert Pow(base, e) == base * v;
      ModOfMod(base, d);
      ModMulCongruent(b', base, u, v, d);
    }
  }

  lemma ModOfMod(x: int, d: int)
    requires d > 0
    ensures (x % d) % d == x % d
  {
    DivModUnique(x % d, d, 0, x % d);
  }

  /** A non-zero number strictly between `-d` and `d` is no multiple of `d`. */
  lemma SmallNotMultiple(z: int, d: int)
    requires d > 0 && -d < z < d && z != 0
    ensures z % d != 0
  {
    if z > 0 {
      DivModUnique(z, d, 0, z);
    } else {
      DivModUnique(z, d, -1, z + d);
    }
  }

  /** `x == y (mod d)` exactly when `d` divides their difference. */
  lemma CongruentIffDiffZero(x: int, y: int, d: int)
    requires d > 0
    ensures x % d == y % d <==> (x - y) % d == 0
  {
    ModSub(x, y, d);
    var rx, ry := x % d, y % d;
    if rx != ry {
      SmallNotMultiple(rx - ry, d);
    } else {
      DivModUnique(0, d, 0, 0);
    }
  }
}
