/** The walk state `(x, a, b)` shared by both walk strategies, the
    invariant it represents, and the wrap-around of its exponents. */
module WalkState {
  import opened Arith
  import opened Words

  /** A walk state: the group element `x` and its exponent accumulators
      `a` and `b`. In the C program `a` and `b` are `uint64_t`; here they
      are naturals, so one type serves both for the machine state (both
      below 2^64) and for the exact state whose exponents never wrap. */
  datatype Xab = Xab(x: nat, a: nat, b: nat)

  /** Both tortoise and hare start at the identity `g^0 * h^0 = 1`. */
  const Start: Xab := Xab(1, 0, 0)

  /** The exponents fit in a `uint64_t`. */
  predicate IsMachine(s: Xab) {
    s.a < TWO_64 && s.b < TWO_64
  }

  /** Reduce the exponents modulo 2^64, as the C `uint64_t` updates do. */
  function Wrap(s: Xab): (t: Xab)
    ensures IsMachine(t) && t.x == s.x
    ensures IsMachine(s) ==> t == s
  {
    Xab(s.x, Wrap64(s.a), Wrap64(s.b))
  }

  /** The walk invariant `x == g^a * h^b (mod p)`. */
  ghost predicate Represents(g: nat, h: nat, p: nat, s: Xab)
    requires p > 0
  {
    s.x % p == (Pow(g, s.a) * Pow(h, s.b)) % p
  }

  lemma StartRepresents(g: nat, h: nat, p: nat)
    requires p > 0
    ensures Represents(g, h, p, Start)
  {
    assert Pow(g, 0) == 1 && Pow(h, 0) == 1;
  }

  /** Multiplying two represented elements adds their exponents. */
  lemma MulRepresents(g: nat, h: nat, p: nat, s: Xab, t: Xab)
    requires p > 0 && Represents(g, h, p, s) && Represents(g, h, p, t)
    ensures Represents(g, h, p, Xab((s.x * t.x) % p, s.a + t.a, s.b + t.b))
  {
    var ga, hb, gc, hd := Pow(g, s.a), Pow(h, s.b), Pow(g, t.a), Pow(h, t.b);
    calc {
      ((s.x * t.x) % p) % p;
      { ModOfMod(s.x * t.x, p); }
      (s.x * t.x) % p;
      { ModMulCongruent(s.x, ga * hb, t.x, gc * hd, p); }
      ((ga * hb) * (gc * hd)) % p;
      { MulRearrange(ga, hb, gc, hd); PowAdd(g, s.a, t.a); PowAdd(h, s.b, t.b); }
      (Pow(g, s.a + t.a) * Pow(h, s.b + t.b)) % p;
    }
  }

  /** Wrapping after adding `k` equals wrapping, adding and wrapping. */
  lemma WrapAdd(n: nat, k: nat)
    ensures Wrap64(Wrap64(n) + k) == Wrap64(n + k)
  {
    ModAdd(n, k, TWO_64);
    ModAdd(Wrap64(n), k, TWO_64);
    ModOfMod(n, TWO_64);
  }

  /** Wrapping after doubling equals wrapping, doubling and wrapping. */
  lemma WrapDouble(n: nat)
    ensures Wrap64(2 * Wrap64(n)) == Wrap64(2 * n)
  {
    ModMulLeft(n, 2, TWO_64);
    assert Wrap64(n) * 2 == 2 * Wrap64(n) && n * 2 == 2 * n;
  }
}
