/** Types shared by every component: bytes, 32-bit unsigned integers with
    their wrap-around, and the error values the store reports. */
module Common {

  /** A Go `byte`. */
  type byte = b: int | 0 <= b < 0x100

  /** A Go `uint32`. */
  type u32 = n: int | 0 <= n < 0x1_0000_0000

  /** Go strings and byte slices are both sequences of bytes here. */
  type Bytes = seq<byte>

  const U32_MODULUS: int := 0x1_0000_0000

  /** The value a uint32 holds after an addition or a conversion whose exact
      result is `n`: Go's uint32 arithmetic wraps around modulo 2^32. */
  function Wrap32(n: nat): (r: u32)
    ensures n < U32_MODULUS ==> r == n
    ensures (r - n) % U32_MODULUS == 0
  {
    n % U32_MODULUS
  }

  /** Adding after a wrap is the same as wrapping once at the end. */
  lemma WrapAdd(a: nat, b: nat)
    ensures Wrap32(Wrap32(a) + b) == Wrap32(a + b)
  {
  }

  datatype Option<T> = None | Some(value: T)

  /** The errors of the store. `SliceOutOfRange` stands for the run-time
      panic Go raises when a slice expression leaves its array; `Other`
      carries an error produced by code outside this model. */
  datatype Error =
    | InvalidOffset
    | ValueNotFound
    | KeyNotFound
    | SliceOutOfRange
    | Other(message: string)

  datatype Result<T> = Ok(value: T) | Err(error: Error)
}
