/** Fixed-width machine integers of the C program and their widening into
    arbitrary-precision integers. */
module Words {

  const TWO_32: nat := 0x1_0000_0000
  const TWO_64: nat := 0x1_0000_0000_0000_0000

  /** `uint64_t`: the exponent accumulators, the subgroup order and the
      step counter. */
  type U64 = n: nat | n < TWO_64

  /** Unsigned 64-bit arithmetic wraps around modulo 2^64. */
  function Wrap64(n: nat): (r: U64)
    ensures n < TWO_64 ==> r == n
    ensures (n - r) % TWO_64 == 0
  {
    n % TWO_64
  }

  /** `mpz_set_u64`: GMP's `mpz_set_ui` takes only an `unsigned int`
      (32 bits), so the value is rebuilt from its high half shifted left by
      32 bits plus its low half. The widening is exact. */
  function MpzSetU64(u64: U64): (n: nat)
    ensures n == u64
  {
    var high := u64 / TWO_32;      // (unsigned int)(u64 >> 32)
    var shifted := high * TWO_32;  // mpz_mul_2exp(n, n, 32)
    shifted + u64 % TWO_32         // mpz_add_ui(n, n, (unsigned int)u64)
  }
}
