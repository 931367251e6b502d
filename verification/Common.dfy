/** Shared vocabulary: optional and fallible values, and the 32-bit unsigned
    arithmetic that the recording format relies on. */
module Common {
  datatype Option<+T> = None | Some(value: T)

  datatype Result<+T, +E> = Ok(value: T) | Err(error: E)

  const TWO_32: int := 0x1_0000_0000

  /** Go's uint32. Sums and products are written with Wrap32 wherever the program could overflow. */
  type uint32 = x: int | 0 <= x < TWO_32

  function Wrap32(x: int): (r: uint32)
    ensures 0 <= x < TWO_32 ==> r == x
    ensures TWO_32 <= x < 2 * TWO_32 ==> r == x - TWO_32
    ensures -TWO_32 <= x < 0 ==> r == x + TWO_32
  {
    x % TWO_32
  }

  /** Whatever is wrapped keeps its value up to multiples of 2^32. */
  lemma WrapMeans(x: int, q: int)
    requires 0 <= x - q * 0x1_0000_0000 < 0x1_0000_0000
    ensures Wrap32(x) == x - q * 0x1_0000_0000
  {
    assert x == q * TWO_32 + (x - q * TWO_32);
  }

  /** A number truncated toward zero, as Go's and JavaScript's conversions do. */
  function Truncate(r: real): int {
    if r >= 0.0 then r.Floor else -((-r).Floor)
  }

  /** Between n and the next number away from zero. */
  lemma TruncateMeans(r: real, n: int)
    ensures Truncate(r) == n <==>
      if n == 0 then -1.0 < r < 1.0
      else if n > 0 then n as real <= r < (n + 1) as real
      else (n - 1) as real < r <= n as real
  {}
}
