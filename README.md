# Pollard's rho for discrete logarithms, modelled in Dafny

This project models the Pollard-rho engine of `experiments/rho.c`. The
program solves `h = g^x (mod p)` for `x` in the subgroup of order `N`
generated by `g`. It does this by walking pseudo-randomly through states
`(x, a, b)` with `x == g^a h^b (mod p)` until Floyd's tortoise and hare meet
on the same element. The logarithm then follows from the solution of
`x (B - b) == a - A (mod N)`.

What each module covers:

| module | file | models |
|---|---|---|
| `Arith` | `arith.dfy` | `Pow` and the modular-arithmetic lemmas the proofs use |
| `Words` | `words.dfy` | `uint64_t` (`U64`, `Wrap64`) and `mpz_set_u64` |
| `WalkState` | `walk_state.dfy` | the state `(x, a, b)`, the start `(1, 0, 0)`, the invariant `Represents` and 2^64 wrap-around |
| `StandardWalk` | `standard_walk.dfy` | `standard_walk`, `standard_walk_init`, `new_xab_standard_walk`, and iterating the walk |
| `AddingWalk` | `adding_walk.dfy` | `adding_walk` as a class over three arrays, `adding_walk_init` as its constructor, `new_xab_adding_walk` |
| `Modular` | `modular.dfy` | `mpz_invert`: extended Euclid and inversion, failing exactly when there is no inverse |
| `Extraction` | `extraction.dfy` | the disabled extraction at the end of `main`, as a function |
| `Floyd` | `floyd.dfy` | the `do … while` loop of `main`, and `main` with the extraction enabled |

How the arithmetic is modelled:

- Group elements and GMP integers are Dafny `nat`s. `%` is Euclidean, which is what `mpz_mod` computes.
- The `uint64_t` exponents wrap modulo 2^64. Each step is written twice:
  - `NextExact` uses exponents that never wrap;
  - `Next` is `NextExact` followed by reducing the exponents modulo 2^64, which is what the C code does.
- `StandardWalk.IterateIsWrappedExact` proves that the C walk is the exact walk with its exponents reduced modulo 2^64. So the walk invariant holds for the true exponents at every step, and for the C exponents as long as nothing has wrapped.
- The walk loop in `main` has no bound. `Floyd.FindCollision` takes a round limit `maxRounds` and reports no collision when the limit runs out. Termination is not proved.
- The FNV-1 hash of `x` is a parameter `H: nat -> U64`. Every property of the adding walk holds for any hash.
- The PCG generator becomes the sequence `draws` of the values its bounded draws return. Each draw is below `N`.

Where the model departs from the source or its description:

- The extraction (`experiments/rho.c:192-220`) is commented out in the source. Where it is degenerate, it prints "degenerate" and then goes on to use an undefined inverse. `Extraction.Extract` returns `Degenerate` instead. `Floyd.Solve` always runs the extraction after a collision.
- The thresholds follow the code: `ceil(p/3)` and `2 * ceil(p/3)`, not `p/3` and `2p/3`. For `p` equal to 1, 2 or 4 this leaves the "multiply by g" region empty, and for `p == 1` the "square" region as well. `StandardWalk.RegionsNonEmpty` shows that all three regions are non-empty exactly when `p == 3` or `p >= 5`.
- The extraction subtracts the widened exponents as integers and lets `mpz_invert` reduce a negative `B - b`. Reducing `B - b` modulo `N` first gives the same inverse, so the result is the same.

## Model

| member | source | states |
|---|---|---|
| `Words.MpzSetU64` | experiments/rho.c:43-47 | rebuilding a 64-bit value from its high 32 bits shifted left by 32 plus its low 32 bits gives back the value exactly |
| `Words.Wrap64` | experiments/rho.c:116-123 | an unsigned 64-bit result is the unique value below 2^64 congruent to the exact one, and equals it when there is no overflow |
| `StandardWalk.CeilDiv` | experiments/rho.c:60 | `mpz_cdiv_q_ui` gives the quotient rounded up: `n <= d q < n + d` |
| `StandardWalk.Init` | experiments/rho.c:49-64 | copies `p`, `g`, `h`, widens `N` exactly, sets `third_p = ceil(p/3)` and `two_thirds_p = 2 third_p` (so `third_p <= two_thirds_p`); valid whenever `p > 0` |
| `StandardWalk.PartitionBalanced` | experiments/rho.c:59-63 | the threshold differences: `two_thirds_p - third_p == third_p` and `third_p - 2 <= p - two_thirds_p <= third_p`; these are the sizes of the three regions of `[0, p)` when `two_thirds_p <= p`, which holds from `p == 2` on |
| `StandardWalk.RegionsNonEmpty` | experiments/rho.c:59-63 | `0 < third_p < two_thirds_p < p`, so that all three regions are non-empty, holds exactly when `p == 3` or `p >= 5` |
| `StandardWalk.NextExact` | experiments/rho.c:113-127 | the step with unbounded exponents, branching on `x < third_p`, `x < two_thirds_p` or neither, yields an `x` in `[0, p)` |
| `StandardWalk.Next` | experiments/rho.c:113-127 | the new `x` lies in `[0, p)` and both exponents fit in `uint64_t` |
| `StandardWalk.NewXab` | experiments/rho.c:113-127 | the in-place update of `x`, `*a`, `*b` yields the walk step `Next`, which branches on `x < third_p` (multiply by `h`, `b + 1`), `x < two_thirds_p` (square, `2a`, `2b`), otherwise (multiply by `g`, `a + 1`), each with `uint64_t` wrap-around |
| `StandardWalk.NextExactPreserves` | experiments/rho.c:113-127 | with unbounded exponents, a step keeps `x == g^a h^b (mod p)` in all three branches |
| `StandardWalk.NextWrapCommutes` | experiments/rho.c:116-123 | wrapping the exponents before a step and after it gives the same state as wrapping only after it |
| `StandardWalk.IterateIsWrappedExact` | experiments/rho.c:185-190 | any number of C walk steps equals the same number of exact steps with the exponents reduced modulo 2^64 |
| `StandardWalk.IterateExactPreserves` | experiments/rho.c:185-190 | any number of exact steps keeps the walk invariant |
| `StandardWalk.WalkFromStart` | experiments/rho.c:165-190 | every state reached from `(1, 0, 0)` has the true exponents reduced modulo 2^64, those satisfy the invariant, and without overflow the C state does |
| `WalkState.StartRepresents` | experiments/rho.c:166-174 | the start state `(1, 0, 0)` satisfies the walk invariant |
| `AddingWalk.Bucket` | experiments/rho.c:138 | the bucket `x_hash % r` lies in `[0, r)` |
| `AddingWalk.AddingWalk.constructor` | experiments/rho.c:67-105 | the table has exactly `r` entries in three fresh arrays; `m[i]`, `n[i]` are the successive generator draws (below `N`) and `M[i] == (g^m[i] mod p)(h^n[i] mod p) mod p`; `r`, `p` and the widened `N` are stored |
| `AddingWalk.AddingWalk.NextExact` | experiments/rho.c:138-143 | the new `x` lies in `[0, p)` |
| `AddingWalk.AddingWalk.Next` | experiments/rho.c:138-143 | the C step, with the exponent sums reduced modulo 2^64, yields an `x` in `[0, p)` and exponents that fit in `uint64_t` |
| `AddingWalk.AddingWalk.NewXab` | experiments/rho.c:129-144 | the in-place update yields the step `x * M[i] mod p`, `a + m[i]`, `b + n[i]` modulo 2^64, with `i` the bucket of `H(x)` |
| `AddingWalk.JumpPreserves` | experiments/rho.c:140-143 | multiplying by a valid table entry and adding its exponents keeps `x == g^a h^b (mod p)` |
| `AddingWalk.AddingWalk.NextExactPreserves` | experiments/rho.c:138-143 | over a valid table, every exact step keeps the walk invariant, whatever the hash |
| `AddingWalk.AddingWalk.NextPreserves` | experiments/rho.c:138-143 | the C step keeps the walk invariant when its exponent sums do not overflow |
| `Modular.ExtGcd` | experiments/rho.c:208 | the extended gcd returns Bezout coefficients `g == a x + b y` and, unless both inputs are zero, a positive common divisor of both |
| `Modular.Invert` | experiments/rho.c:208 | `mpz_invert` returns an inverse in `[0, n)` when one exists and fails exactly when no integer is an inverse |
| `Extraction.Extract` | experiments/rho.c:192-217 | degenerate exactly when `B - b` has no inverse modulo `N`; otherwise the result is the unique `r` in `[0, N)` with `r (B - b) == a - A (mod N)` |
| `Extraction.DegenerateIffCommonDivisor` | experiments/rho.c:204-210 | the extraction is degenerate exactly when some `d > 1` divides both `B - b` and `N` |
| `Floyd.FindCollision` | experiments/rho.c:165-190 | after `k` rounds the tortoise is `k` steps and the hare `2k` steps from `(1, 0, 0)` and `i == 3k` modulo 2^64; a reported collision is the first round where `x == X`, and "not found" means no round up to the limit collided |
| `Floyd.CollisionCongruence` | experiments/rho.c:204-217 | when `g` has order `N` and `h == g^L`, two invariant states on the same element make `L mod N` solve `L (B - b) == a - A (mod N)` |
| `Floyd.CollisionYieldsLog` | experiments/rho.c:165-217 | if tortoise and hare meet after `k` rounds and neither has overflowed its exponents, the extraction at round `k` is degenerate or returns `L mod N`, and it returns `L mod N` whenever `B - b` is invertible modulo `N` |
| `Floyd.Solve` | experiments/rho.c:165-220 | `main` with the extraction on: "not found" exactly when no round within the limit collides; otherwise the outcome is the extraction applied to the tortoise and hare of the first colliding round `k`, with step counter `3k` modulo 2^64; when neither walk has overflowed by round `k`, under the order hypothesis the result is degenerate or `L mod N`, and it is `L mod N` whenever `B - b` is invertible modulo `N` |

## Left out

- `entropy_getbytes` (`experiments/rho.c:32-41`) reads `/dev/random`. That is I/O, so it is not modelled, and with it the seeding of the PCG generator.
- The PCG generator (`pcg64_srandom_r`, `pcg64_boundedrand_r`) is a foreign library. It is replaced by the sequence of its draws, each below `N`. Its uniformity is not modelled.
- The FNV-1 hash and the base-2 conversion with `mpz_get_str` (`experiments/rho.c:130-136`) are foreign library calls. They are replaced by an arbitrary function `H` of `x`.
- GMP memory management (`mpz_init`, `mpz_clear`, `malloc`, `free`) is not behaviour, so it is not modelled.
- Argument parsing and output in `main` (`experiments/rho.c:147-163`, `176`, `219-222`) are left out. `Floyd.Solve` takes the parsed values and returns what would be printed.
- The adding walk is built and stepped, but no loop drives it: its use in `main` is commented out (`experiments/rho.c:178-179`).
- `Floyd.FindCollision`: the source loop has no bound. The model stops after `maxRounds` rounds, so it says nothing about termination or the `O(sqrt N)` expected step count, which is a probabilistic claim.
- `Floyd.CollisionYieldsLog` and `Floyd.Solve` state correctness only when no exponent has wrapped modulo 2^64 by the colliding round. After a wrap the C exponents are the true ones modulo 2^64, not modulo `N`, so unless `N` divides 2^64 the extracted value is in general wrong. This happens early: every "square" step doubles both exponents, so once a walk has squared 64 times after its `b` became non-zero, `b` has wrapped. The correctness statements therefore cover only short walks.
- `Floyd.CollisionYieldsLog` takes "`g` has order `N`" as the hypothesis `HasOrder`: equal powers of `g` modulo `p` have exponents equal modulo `N`. The program never checks this.
- The table size `r` is an `int` in C. The model takes `r` as a natural number, and stepping the adding walk requires `r > 0`: `x_hash % 0` is undefined.
- `N` is any `strtoull` result in C, zero included. `Extraction.Extract` and `Floyd.Solve` require `N > 0`, because GMP's inversion modulo 0 is undefined.
- `p` is an arbitrary GMP integer in C. The model takes a natural number, and stepping or building a table requires `p > 0`: GMP divides by `p`.
- `unsigned int` is taken to be 32 bits wide in `mpz_set_u64`.
- "The two colliding states have different exponents" is a property of a successful run, not something the code guarantees, so it is not stated.
- `experiments/zp.py` is an instance generator built on `sympy`, random numbers and CSV output. It is not part of this model.
