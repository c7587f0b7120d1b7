/** Small value types shared by the engine modules. */
module Common {

  /** Rust's `Option<T>`. */
  datatype Option<T> = None | Some(value: T)

  /** Rust's `Result<T, E>`. */
  datatype Result<T, E> = Ok(value: T) | Err(error: E)

  /** An `f32` is carried as its IEEE-754 bit pattern, read as an unsigned
      32-bit number: the engine only copies such values around, it never
      computes with them. */
  type F32 = b: nat | b < 0x1_0000_0000

  /** The bit pattern of `0.0f32`. */
  const F32_ZERO: F32 := 0

  /** Three `f32` components: a vertex position, a direction or a colour. */
  datatype Vec3 = Vec3(x: F32, y: F32, z: F32)

  const U32_MODULUS: nat := 0x1_0000_0000

  /** Rust's truncating cast `n as u32`. */
  function AsU32(n: nat): (r: nat)
    ensures r < U32_MODULUS
    ensures n < U32_MODULUS ==> r == n
    ensures (r - n) % U32_MODULUS == 0
  {
    n % U32_MODULUS
  }

  function Max(a: nat, b: nat): (r: nat)
  {
    if a < b then b else a
  }

  /** Multiplication by a natural number keeps order. */
  lemma MulMonotone(a: nat, b: nat, k: nat)
    ensures a <= b ==> a * k <= b * k
  {
  }

  /** `(q * k + r) / k == q` and `(q * k + r) % k == r` for `r < k`. */
  lemma DivModUnique(q: nat, k: nat, r: nat)
    requires 0 <= r < k
    ensures (q * k + r) / k == q && (q * k + r) % k == r
  {
    var n := q * k + r;
    var q', r' := n / k, n % k;
    assert n == q' * k + r';
    MulMonotone(q' + 1, q, k);
    MulMonotone(q + 1, q', k);
    assert (q' + 1) * k == q' * k + k && (q + 1) * k == q * k + k;
  }
}
