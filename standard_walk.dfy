/** The standard three-partition walk (`standard_walk`,
    `standard_walk_init`, `new_xab_standard_walk`). */
module StandardWalk {
  import opened Arith
  import opened Words
  import opened WalkState

  /** The group context and the two partition thresholds. The structure
      is filled once by its initialiser and read-only afterwards. */
  datatype StandardWalk = StandardWalk(
    p: nat,          // prime modulus
    N: nat,          // subgroup order, widened from uint64_t
    g: nat,
    h: nat,
    thirdP: nat,     // ceil(p / 3)
    twoThirdsP: nat) // 2 * ceil(p / 3)

  /** `mpz_cdiv_q_ui` on a non-negative dividend: the quotient rounded up. */
  function CeilDiv(n: nat, d: nat): (q: nat)
    requires d > 0
    ensures n <= d * q < n + d
  {
    var q := (n + d - 1) / d;
    assert n + d - 1 == d * q + (n + d - 1) % d;
    q
  }

  /** A walk built by `Init` over a positive modulus (the step reduces
      modulo `p`, which GMP leaves undefined for zero); `N` came from a
      `uint64_t`. */
  predicate Valid(w: StandardWalk) {
    && w.p > 0
    && w.N < TWO_64
    && w.p <= 3 * w.thirdP < w.p + 3
    && w.twoThirdsP == 2 * w.thirdP
  }

  /** `standard_walk_init`: copy the group parameters and place the
      thresholds at `ceil(p/3)` and twice that. */
  function Init(p: nat, N: U64, g: nat, h: nat): (w: StandardWalk)
    ensures w.p == p && w.N == N && w.g == g && w.h == h
    ensures p <= 3 * w.thirdP < p + 3
    ensures w.twoThirdsP == 2 * w.thirdP
    ensures w.thirdP <= w.twoThirdsP
    ensures p > 0 ==> Valid(w)
  {
    var third := CeilDiv(p, 3);
    StandardWalk(p, MpzSetU64(N), g, h, third, 2 * third)
  }

  /** The thresholds are evenly spaced: `[third_p, two_thirds_p)` is as
      long as `[0, third_p)`, and `p - two_thirds_p` is between two less
      than that and that. These are the sizes of the "multiply by h",
      "square" and "multiply by g" regions of `[0, p)` whenever
      `two_thirds_p <= p`, which holds from `p == 2` on. */
  lemma PartitionBalanced(p: nat, N: U64, g: nat, h: nat)
    ensures var w := Init(p, N, g, h);
      && w.twoThirdsP - w.thirdP == w.thirdP
      && w.thirdP - 2 <= p - w.twoThirdsP <= w.thirdP
  {
  }

  /** All three regions are non-empty exactly for `p == 3` and `p >= 5`:
      for `p` in 1, 2 and 4 the "multiply by g" region is empty (and for
      1 the "square" region too); `p == 0` is no modulus. */
  lemma RegionsNonEmpty(p: nat, N: U64, g: nat, h: nat)
    ensures var w := Init(p, N, g, h);
      0 < w.thirdP < w.twoThirdsP < p <==> p == 3 || p >= 5
  {
  }

  /** One step of the walk with exponents that never wrap: the branch
      depends only on which region `x` lies in. */
  function NextExact(w: StandardWalk, s: Xab): (t: Xab)
    requires Valid(w)
    ensures t.x < w.p
  {
    if s.x < w.thirdP then
      Xab((w.h * s.x) % w.p, s.a, s.b + 1)
    else if s.x < w.twoThirdsP then
      Xab((s.x * s.x) % w.p, 2 * s.a, 2 * s.b)
    else
      Xab((w.g * s.x) % w.p, s.a + 1, s.b)
  }

  /** One step as the C program computes it, with `uint64_t` exponents. */
  function Next(w: StandardWalk, s: Xab): (t: Xab)
    requires Valid(w)
    ensures t.x < w.p && IsMachine(t)
  {
    Wrap(NextExact(w, s))
  }

  /** `new_xab_standard_walk`: update `x`, `*a` and `*b` in place. */
  method NewXab(w: StandardWalk, x: nat, a: U64, b: U64) returns (x': nat, a': U64, b': U64)
    requires Valid(w)
    ensures Xab(x', a', b') == Next(w, Xab(x, a, b))
  {
    x', a', b' := x, a, b;
    if x' < w.thirdP {
      x' := w.h * x';
      b' := (b' + 1) % TWO_64;
    } else if x' < w.twoThirdsP {
      x' := x' * x';
      a' := (2 * a') % TWO_64;
      b' := (2 * b') % TWO_64;
    } else {
      x' := w.g * x';
      a' := (a' + 1) % TWO_64;
    }
    x' := x' % w.p;
  }

  /** Every exact step keeps `x == g^a * h^b (mod p)`. */
  lemma NextExactPreserves(w: StandardWalk, s: Xab)
    requires Valid(w) && Represents(w.g, w.h, w.p, s)
    ensures Represents(w.g, w.h, w.p, NextExact(w, s))
  {
    var g, h, p := w.g, w.h, w.p;
    if s.x < w.thirdP {
      assert Pow(h, 1) == h && Pow(g, 0) == 1;
      MulRepresents(g, h, p, s, Xab(h, 0, 1));
      assert s.x * h == h * s.x;
    } else if s.x < w.twoThirdsP {
      MulRepresents(g, h, p, s, s);
    } else {
      assert Pow(g, 1) == g && Pow(h, 0) == 1;
      MulRepresents(g, h, p, s, Xab(g, 1, 0));
      assert s.x * g == g * s.x;
    }
  }

  /** Wrapping the exponents before a step changes nothing after the
      step is wrapped: the branch reads only `x`, and the exponent updates
      are additions and doublings. */
  lemma NextWrapCommutes(w: StandardWalk, s: Xab)
    requires Valid(w)
    ensures Next(w, Wrap(s)) == Wrap(NextExact(w, s))
  {
    WrapAdd(s.a, 1);
    WrapAdd(s.b, 1);
    WrapDouble(s.a);
    WrapDouble(s.b);
    WrapAdd(s.a, 0);
    WrapAdd(s.b, 0);
  }

  /** `n` steps of the machine walk from `s`. */
  function Iterate(w: StandardWalk, n: nat, s: Xab): Xab
    requires Valid(w)
  {
    if n == 0 then s else Next(w, Iterate(w, n - 1, s))
  }

  lemma IterateOneMore(w: StandardWalk, n: nat, s: Xab)
    requires Valid(w)
    ensures Iterate(w, n + 1, s) == Next(w, Iterate(w, n, s))
  {
  }

  /** `n` steps of the exact walk from `s`. */
  function IterateExact(w: StandardWalk, n: nat, s: Xab): Xab
    requires Valid(w)
  {
    if n == 0 then s else NextExact(w, IterateExact(w, n - 1, s))
  }

  /** The machine walk is the exact walk with its exponents reduced
      modulo 2^64: overflow never changes the sequence of elements `x`. */
  lemma {:induction false} IterateIsWrappedExact(w: StandardWalk, n: nat, s: Xab)
    requires Valid(w)
    ensures Iterate(w, n, Wrap(s)) == Wrap(IterateExact(w, n, s))
  {
    if n > 0 {
      IterateIsWrappedExact(w, n - 1, s);
      NextWrapCommutes(w, IterateExact(w, n - 1, s));
    }
  }

  /** The exact walk keeps the invariant for any number of steps. */
  lemma {:induction false} IterateExactPreserves(w: StandardWalk, n: nat, s: Xab)
    requires Valid(w) && Represents(w.g, w.h, w.p, s)
    ensures Represents(w.g, w.h, w.p, IterateExact(w, n, s))
  {
    if n > 0 {
      IterateExactPreserves(w, n - 1, s);
      NextExactPreserves(w, IterateExact(w, n - 1, s));
    }
  }

  /** Every state reached from `(1, 0, 0)` has exponents that are the
      true exponents of its element reduced modulo 2^64. */
  lemma WalkFromStart(w: StandardWalk, n: nat)
    requires Valid(w)
    ensures Iterate(w, n, Start) == Wrap(IterateExact(w, n, Start))
    ensures Represents(w.g, w.h, w.p, IterateExact(w, n, Start))
    ensures IsMachine(IterateExact(w, n, Start)) ==>
      Represents(w.g, w.h, w.p, Iterate(w, n, Start))
  {
    IterateIsWrappedExact(w, n, Start);
    StartRepresents(w.g, w.h, w.p);
    IterateExactPreserves(w, n, Start);
  }
}
