/** The r-adding walk (`adding_walk`, `adding_walk_init`,
    `new_xab_adding_walk`). */
module AddingWalk {
  import opened Arith
  import opened Words
  import opened WalkState

  /** The 64-bit FNV-1 hash of the base-2 digits of `x`; which function it
      is does not matter to any property below. */
  type Hash = nat -> U64

  /** `x_hash % w->r`: the positive `int` table size is converted to
      `uint64_t` before the remainder is taken. */
  function Bucket(hash: U64, r: nat): (i: nat)
    requires r > 0
    ensures i < r
  {
    hash % r
  }

  /** Entry `(m, n, M)` of the table: `M == g^m * h^n (mod p)`, computed
      from the two `mpz_powm` results. */
  predicate TableEntry(g: nat, h: nat, p: nat, m: nat, n: nat, M: nat)
    requires p > 0
  {
    M == ((Pow(g, m) % p) * (Pow(h, n) % p)) % p
  }

  /** Multiplying by a table entry and adding its exponents keeps the
      walk invariant. */
  lemma JumpPreserves(g: nat, h: nat, p: nat, s: Xab, mi: nat, ni: nat, Mi: nat)
    requires p > 0 && Represents(g, h, p, s) && TableEntry(g, h, p, mi, ni, Mi)
    ensures Represents(g, h, p, Xab((s.x * Mi) % p, s.a + mi, s.b + ni))
  {
    assert Mi % p == (Pow(g, mi) * Pow(h, ni)) % p by {
      ModMul(Pow(g, mi), Pow(h, ni), p);
      ModOfMod(Pow(g, mi) * Pow(h, ni), p);
    }
    MulRepresents(g, h, p, s, Xab(Mi, mi, ni));
  }

  class AddingWalk {
    const r: nat
    const p: nat          // prime modulus
    const N: nat          // subgroup order, widened from uint64_t
    const M: array<nat>
    const m: array<U64>
    const n: array<U64>
    // The C structure does not keep g and h; the table is built from them.
    ghost const g: nat
    ghost const h: nat

    /** The three parallel arrays have `r` entries each, every exponent
        lies below `N`, and every multiplier matches its exponents. */
    ghost predicate Valid()
      reads M, m, n
    {
      && M.Length == r && m.Length == r && n.Length == r
      && p > 0
      && forall i :: 0 <= i < r ==>
           m[i] < N && n[i] < N && TableEntry(g, h, p, m[i], n[i], M[i])
    }

    /** `adding_walk_init`. The pseudo-random generator is replaced by the
        sequence `draws` of the values its bounded draws return, in call
        order: `m[i]` is the draw at `2 i`, `n[i]` the draw at `2 i + 1`. */
    constructor (r: nat, p: nat, N: U64, g: nat, h: nat, draws: seq<U64>)
      requires p > 0
      requires |draws| == 2 * r
      requires forall k :: 0 <= k < |draws| ==> draws[k] < N
      ensures this.r == r && this.p == p && this.N == N
      ensures this.g == g && this.h == h
      ensures fresh(M) && fresh(m) && fresh(n)
      ensures Valid()
      ensures forall i :: 0 <= i < r ==> m[i] == draws[2 * i] && n[i] == draws[2 * i + 1]
    {
      var MTable := new nat[r];
      var mTable := new U64[r];
      var nTable := new U64[r];
      var i := 0;
      while i < r
        invariant 0 <= i <= r
        invariant forall j :: 0 <= j < i ==>
          && mTable[j] == draws[2 * j] && nTable[j] == draws[2 * j + 1]
          && TableEntry(g, h, p, mTable[j], nTable[j], MTable[j])
      {
        mTable[i] := draws[2 * i];
        nTable[i] := draws[2 * i + 1];
        var mi := MpzSetU64(mTable[i]);
        var ni := MpzSetU64(nTable[i]);
        var gm := Pow(g, mi) % p;        // mpz_powm(g_m, g, mi, p)
        var hn := Pow(h, ni) % p;        // mpz_powm(h_n, h, ni, p)
        MTable[i] := (gm * hn) % p;
        i := i + 1;
      }
      this.r := r;
      this.p := p;
      this.N := MpzSetU64(N);
      this.g := g;
      this.h := h;
      this.M := MTable;
      this.m := mTable;
      this.n := nTable;
    }

    /** One step with exponents that never wrap. */
    function NextExact(H: Hash, s: Xab): (t: Xab)
      reads M, m, n
      requires Valid() && r > 0
      ensures t.x < p
    {
      var i := Bucket(H(s.x), r);
      Xab((s.x * M[i]) % p, s.a + m[i], s.b + n[i])
    }

    /** One step as the C program computes it, with `uint64_t` exponents. */
    function Next(H: Hash, s: Xab): (t: Xab)
      reads M, m, n
      requires Valid() && r > 0
      ensures t.x < p && IsMachine(t)
    {
      Wrap(NextExact(H, s))
    }

    /** `new_xab_adding_walk`: pick the bucket of `x` and add its jump. */
    method NewXab(H: Hash, x: nat, a: U64, b: U64) returns (x': nat, a': U64, b': U64)
      requires Valid() && r > 0
      ensures Xab(x', a', b') == Next(H, Xab(x, a, b))
    {
      var xHash := H(x);
      var i := Bucket(xHash, r);
      x' := x * M[i];
      x' := x' % p;
      a' := (a + m[i]) % TWO_64;
      b' := (b + n[i]) % TWO_64;
    }

    /** Every exact step keeps `x == g^a * h^b (mod p)`, whatever the
        hash. */
    lemma NextExactPreserves(H: Hash, s: Xab)
      requires Valid() && r > 0 && Represents(g, h, p, s)
      ensures Represents(g, h, p, NextExact(H, s))
    {
      var i := Bucket(H(s.x), r);
      assert TableEntry(g, h, p, m[i], n[i], M[i]);
      JumpPreserves(g, h, p, s, m[i], n[i], M[i]);
    }

    /** As long as the exponents do not overflow, the C step itself keeps
        the invariant. */
    lemma NextPreserves(H: Hash, s: Xab)
      requires Valid() && r > 0 && Represents(g, h, p, s)
      requires IsMachine(NextExact(H, s))
      ensures Represents(g, h, p, Next(H, s))
    {
      NextExactPreserves(H, s);
    }
  }
}
