/** The driver in `main`: Floyd's tortoise-and-hare search for a collision
    of the standard walk, followed by the extraction of the logarithm. */
module Floyd {
  import opened Arith
  import opened Words
  import opened WalkState
  import opened StandardWalk
  import opened Modular
  import opened Extraction

  /** After `j` rounds the tortoise (`j` steps) and the hare (`2 j` steps)
      sit on the same group element. */
  predicate CollidesAt(w: StandardWalk, j: nat)
    requires Valid(w)
  {
    j >= 1 && Iterate(w, j, Start).x == Iterate(w, 2 * j, Start).x
  }

  /** No round before round `n` ends in a collision. */
  predicate NoCollisionBefore(w: StandardWalk, n: nat)
    requires Valid(w)
  {
    forall j :: 1 <= j < n ==> !CollidesAt(w, j)
  }

  lemma NoCollisionExtend(w: StandardWalk, n: nat)
    requires Valid(w) && NoCollisionBefore(w, n) && !CollidesAt(w, n)
    ensures NoCollisionBefore(w, n + 1)
  {
  }

  /** The counter advances by three walk steps per round. */
  lemma CounterStep(k: nat)
    ensures Wrap64(Wrap64(3 * k) + 3) == Wrap64(3 * (k + 1))
  {
    WrapAdd(3 * k, 3);
  }

  /** The collision record: tortoise `(x, a, b)`, hare `(X, A, B)` and the
      `uint64_t` step counter `i`. */
  datatype Collision = Collision(tortoise: Xab, hare: Xab, steps: U64)

  /** The `do ... while (x != X)` loop of `main`, cut off after
      `maxRounds` rounds. `rounds` counts the rounds performed; the
      collision, if any, is the first one. */
  method FindCollision(w: StandardWalk, maxRounds: nat) returns (c: Option<Collision>, rounds: nat)
    requires Valid(w)
    ensures rounds <= maxRounds
    ensures NoCollisionBefore(w, rounds)
    ensures c.Some? ==> && CollidesAt(w, rounds)
                        && c.value.tortoise == Iterate(w, rounds, Start)
                        && c.value.hare == Iterate(w, 2 * rounds, Start)
                        && c.value.steps == Wrap64(3 * rounds)
    ensures c.None? ==> rounds == maxRounds && !CollidesAt(w, maxRounds)
  {
    var x: nat, a: U64, b: U64 := 1, 0, 0;
    var X: nat, A: U64, B: U64 := x, a, b;
    var i: U64 := 0;
    rounds := 0;
    var met := false;
    while !met && rounds < maxRounds
      invariant rounds <= maxRounds
      invariant Xab(x, a, b) == Iterate(w, rounds, Start)
      invariant Xab(X, A, B) == Iterate(w, 2 * rounds, Start)
      invariant i == Wrap64(3 * rounds)
      invariant met <==> CollidesAt(w, rounds)
      invariant NoCollisionBefore(w, rounds)
    {
      ghost var k := rounds;
      NoCollisionExtend(w, k);
      CounterStep(k);
      i := Wrap64(i + 3);
      x, a, b := NewXab(w, x, a, b);
      IterateOneMore(w, k, Start);
      X, A, B := NewXab(w, X, A, B);
      IterateOneMore(w, 2 * k, Start);
      X, A, B := NewXab(w, X, A, B);
      IterateOneMore(w, 2 * k + 1, Start);
      assert Xab(X, A, B) == Iterate(w, 2 * (k + 1), Start);
      rounds := rounds + 1;
      met := x == X;
    }
    if met {
      c := Some(Collision(Xab(x, a, b), Xab(X, A, B), i));
    } else {
      c := None;
    }
  }

  /** `g` generates a subgroup of order exactly `N`: two powers of `g`
      agree modulo `p` precisely when their exponents agree modulo `N`. */
  ghost predicate HasOrder(g: nat, p: nat, N: nat)
    requires p > 0 && N > 0
  {
    forall u: nat, v: nat :: Pow(g, u) % p == Pow(g, v) % p ==> u % N == v % N
  }

  /** `L` is a discrete logarithm of `h` to the base `g`. */
  ghost predicate IsLog(g: nat, h: nat, p: nat, L: nat)
    requires p > 0
  {
    h % p == Pow(g, L) % p
  }

  /** A state of the walk names the single power `g^(a + L b)`. */
  lemma RepresentsPowerOfG(g: nat, h: nat, p: nat, L: nat, s: Xab)
    requires p > 0 && IsLog(g, h, p, L) && Represents(g, h, p, s)
    ensures s.x % p == Pow(g, s.a + L * s.b) % p
  {
    var ga, hb, gl := Pow(g, s.a), Pow(h, s.b), Pow(g, L * s.b);
    assert hb % p == gl % p by {
      PowMod(h, s.b, p);
      PowMod(Pow(g, L), s.b, p);
      PowMul(g, L, s.b);
    }
    calc {
      s.x % p;
      (ga * hb) % p;
      { ModOfMod(ga, p); ModMulCongruent(ga, ga, hb, gl, p); }
      (ga * gl) % p;
      { PowAdd(g, s.a, L * s.b); }
      Pow(g, s.a + L * s.b) % p;
    }
  }

  /** Two states on the same element give a solution `L` of the collision
      congruence `L (B - b) == a - A (mod N)`. */
  lemma CollisionCongruence(g: nat, h: nat, p: nat, N: nat, L: nat, s: Xab, t: Xab)
    requires p > 0 && N > 0 && HasOrder(g, p, N) && IsLog(g, h, p, L)
    requires Represents(g, h, p, s) && Represents(g, h, p, t) && s.x == t.x
    ensures Solves(L % N, s.a, s.b, t.a, t.b, N)
  {
    RepresentsPowerOfG(g, h, p, L, s);
    RepresentsPowerOfG(g, h, p, L, t);
    var u, v := s.a + L * s.b, t.a + L * t.b;
    assert Pow(g, u) % p == Pow(g, v) % p;
    assert u % N == v % N;
    var lhs, rhs := L * (t.b - s.b), s.a - t.a;
    assert v - u == lhs - rhs by {
      MulSubDistrib(L, t.b, s.b);
    }
    CongruentIffDiffZero(v, u, N);
    CongruentIffDiffZero(lhs, rhs, N);
    ModMulLeft(L, t.b - s.b, N);
  }

  /** Round `k` ends in the first collision of the walk. */
  predicate FirstCollision(w: StandardWalk, k: nat)
    requires Valid(w)
  {
    CollidesAt(w, k) && NoCollisionBefore(w, k)
  }

  /** At most one round ends in the first collision. */
  lemma FirstCollisionUnique(w: StandardWalk, j: nat, k: nat)
    requires Valid(w) && FirstCollision(w, j) && FirstCollision(w, k)
    ensures j == k
  {
  }

  /** Neither the tortoise after `k` steps nor the hare after `2 k` steps
      has overflowed its exponents. */
  ghost predicate NoWrapAt(w: StandardWalk, k: nat)
    requires Valid(w)
  {
    IsMachine(IterateExact(w, k, Start)) && IsMachine(IterateExact(w, 2 * k, Start))
  }

  /** The extraction applied to the tortoise and hare of round `k`. */
  function ExtractAt(w: StandardWalk, k: nat): Extracted
    requires Valid(w) && w.N > 0 && k >= 1
  {
    var s, t := Iterate(w, k, Start), Iterate(w, 2 * k, Start);
    Extract(s.a, s.b, t.a, t.b, w.N)
  }

  /** The whole algorithm is correct: when tortoise and hare meet before
      either walk overflows its exponents, the extraction reports a
      degenerate collision or returns the logarithm reduced modulo `N`, and
      it returns the logarithm whenever `B - b` is invertible. */
  lemma {:induction false} CollisionYieldsLog(w: StandardWalk, k: nat, L: nat)
    requires Valid(w) && w.N > 0 && HasOrder(w.g, w.p, w.N) && IsLog(w.g, w.h, w.p, L)
    requires CollidesAt(w, k) && NoWrapAt(w, k)
    ensures ExtractAt(w, k).Degenerate? || ExtractAt(w, k) == Logarithm(L % w.N)
    ensures Invertible(Iterate(w, 2 * k, Start).b - Iterate(w, k, Start).b, w.N) ==>
      ExtractAt(w, k) == Logarithm(L % w.N)
  {
    WalkFromStart(w, k);
    WalkFromStart(w, 2 * k);
    var s, t := Iterate(w, k, Start), Iterate(w, 2 * k, Start);
    CollisionCongruence(w.g, w.h, w.p, w.N, L, s, t);
  }

  /** What `main` reports. */
  datatype Outcome = NotFound | Found(result: Extracted, steps: U64)

  /** `main` with the extraction enabled: build the standard walk, search
      for the first collision within `maxRounds` rounds and extract. */
  method Solve(p: nat, N: U64, g: nat, h: nat, maxRounds: nat, ghost L: nat) returns (outcome: Outcome)
    requires p > 0 && N > 0
    ensures var w := Init(p, N, g, h);
      && (outcome.NotFound? <==> forall j :: 1 <= j <= maxRounds ==> !CollidesAt(w, j))
      && (forall k :: 1 <= k <= maxRounds && FirstCollision(w, k) ==>
            outcome == Found(ExtractAt(w, k), Wrap64(3 * k)))
      && (forall k :: 1 <= k <= maxRounds && FirstCollision(w, k) && NoWrapAt(w, k)
                      && HasOrder(g, p, N) && IsLog(g, h, p, L) ==>
            && (outcome.result.Degenerate? || outcome.result == Logarithm(L % N))
            && (Invertible(Iterate(w, 2 * k, Start).b - Iterate(w, k, Start).b, N) ==>
                  outcome.result == Logarithm(L % N)))
  {
    var w := Init(p, N, g, h);
    var c, rounds := FindCollision(w, maxRounds);
    match c
    case None =>
      outcome := NotFound;
    case Some(col) =>
      var s, t := col.tortoise, col.hare;
      outcome := Found(Extract(s.a, s.b, t.a, t.b, w.N), col.steps);
      forall k | 1 <= k <= maxRounds && FirstCollision(w, k)
        ensures outcome == Found(ExtractAt(w, k), Wrap64(3 * k))
      {
        FirstCollisionUnique(w, k, rounds);
      }
      forall k | 1 <= k <= maxRounds && FirstCollision(w, k) && NoWrapAt(w, k)
                 && HasOrder(g, p, N) && IsLog(g, h, p, L)
        ensures outcome.result.Degenerate? || outcome.result == Logarithm(L % N)
        ensures Invertible(Iterate(w, 2 * k, Start).b - Iterate(w, k, Start).b, N) ==>
                  outcome.result == Logarithm(L % N)
      {
        FirstCollisionUnique(w, k, rounds);
        CollisionYieldsLog(w, k, L);
      }
  }
}
