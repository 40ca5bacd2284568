/** Turning a collision `g^a h^b == g^A h^B (mod p)` into a candidate
    logarithm: solve `x * (B - b) == (a - A) (mod N)`. */
module Extraction {
  import opened Arith
  import opened Words
  import opened Modular

  /** The outcome of the extraction: no usable information, or the
      logarithm modulo `N`. */
  datatype Extracted = Degenerate | Logarithm(x: nat)

  /** `x` solves the collision congruence `x * (B - b) == a - A (mod n)`. */
  predicate Solves(x: int, a: int, b: int, A: int, B: int, n: nat)
    requires n > 0
  {
    (x * (B - b)) % n == (a - A) % n
  }

  /** Multiplying by `s` and then by an inverse of `s` is the identity. */
  lemma CancelInverse(y: int, s: int, inv: int, n: nat)
    requires n > 0 && IsInverse(s, inv, n)
    ensures ((y * s) * inv) % n == y % n
  {
    assert (y * s) * inv == y * (s * inv);
    ModOfMod(y, n);
    ModMulCongruent(y, y, s * inv, 1, n);
  }

  /** The collision extraction. The exponents are widened exactly, `B - b`
      and `a - A` are computed over the integers, and the product of the
      inverse and `a - A` is reduced into `[0, N)`. */
  function Extract(a: U64, b: U64, A: U64, B: U64, N: U64): (r: Extracted)
    requires N > 0
    ensures r.Degenerate? <==> !Invertible(B - b, N)
    ensures r.Logarithm? ==> r.x < N && Solves(r.x, a, b, A, B, N)
    ensures r.Logarithm? ==> forall y :: 0 <= y < N && Solves(y, a, b, A, B, N) ==> y == r.x
  {
    var n := MpzSetU64(N);
    var s := MpzSetU64(B) - MpzSetU64(b);
    match Invert(s, n)
    case None => Degenerate
    case Some(inv) =>
      var diff := MpzSetU64(a) - MpzSetU64(A);
      var x := (inv * diff) % n;
      ExtractSolves(inv, s, diff, n);
      ExtractUnique(x, inv, s, diff, n);
      Logarithm(x)
  }

  lemma ExtractSolves(inv: int, s: int, diff: int, n: nat)
    requires n > 0 && IsInverse(s, inv, n)
    ensures (((inv * diff) % n) * s) % n == diff % n
  {
    ModOfMod(inv * diff, n);
    ModMulCongruent((inv * diff) % n, inv * diff, s, s, n);
    assert (inv * diff) * s == (diff * s) * inv;
    CancelInverse(diff, s, inv, n);
  }

  lemma ExtractUnique(x: nat, inv: int, s: int, diff: int, n: nat)
    requires n > 0 && IsInverse(s, inv, n) && x == (inv * diff) % n
    ensures forall y :: 0 <= y < n && (y * s) % n == diff % n ==> y == x
  {
    forall y | 0 <= y < n && (y * s) % n == diff % n
      ensures y == x
    {
      ExtractSolves(inv, s, diff, n);
      ModMulCongruent(y * s, x * s, inv, inv, n);
      CancelInverse(y, s, inv, n);
      CancelInverse(x, s, inv, n);
      DivModUnique(y, n, 0, y);
      DivModUnique(x, n, 0, x);
    }
  }

  /** `d` divides both `s` and `n`. */
  predicate CommonDivisor(d: int, s: int, n: int)
    requires d > 0
  {
    s % d == 0 && n % d == 0
  }

  /** `s` and `n` are not coprime: some `d > 1` divides both. */
  ghost predicate SharesFactor(s: int, n: int) {
    exists d :: d > 1 && CommonDivisor(d, s, n)
  }

  /** The gcd `mpz_invert` computes, when it is not 1, is a common
      divisor above 1. */
  lemma GcdSharesFactor(s: int, n: nat)
    requires n > 0 && ExtGcd(s % n, n).0 != 1
    ensures SharesFactor(s, n)
  {
    var s': nat := s % n;
    var q := s / n;
    var g := ExtGcd(s', n).0;
    DividesCombination(g, s', n, -q);
    assert s' - n * (-q) == s;
    assert g > 1 && CommonDivisor(g, s, n);
  }

  /** A common divisor above 1 rules out an inverse. */
  lemma SharedFactorNoInverse(s: int, n: nat, d: int)
    requires n > 0 && d > 1 && CommonDivisor(d, s, n)
    ensures !Invertible(s, n)
  {
    var s': nat := s % n;
    var q := s / n;
    DividesCombination(d, s, n, q);
    assert s - n * q == s';
    ModOfMod(s, n);
    forall t | IsInverse(s, t, n)
      ensures false
    {
      ModMulCongruent(s', s, t, t, n);
      NoInverseUnlessCoprime(s', n, d, t);
    }
  }

  /** A collision is degenerate exactly when `B - b` and `N` have a common
      divisor above 1, that is, when they are not coprime. */
  lemma DegenerateIffCommonDivisor(a: U64, b: U64, A: U64, B: U64, N: U64)
    requires N > 0
    ensures Extract(a, b, A, B, N).Degenerate? <==> SharesFactor(B - b, N)
  {
    if Extract(a, b, A, B, N).Degenerate? {
      assert MpzSetU64(N) == N && MpzSetU64(B) - MpzSetU64(b) == B - b;
      GcdSharesFactor(B - b, N);
    } else if SharesFactor(B - b, N) {
      var d :| d > 1 && CommonDivisor(d, B - b, N);
      SharedFactorNoInverse(B - b, N, d);
    }
  }
}
