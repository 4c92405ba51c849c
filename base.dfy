/** Shared vocabulary of the duplicate finder: optional values, results,
    the fixed-width integers the scan works with, and paths. */
module Base {

  datatype Option<+T> = None | Some(value: T)

  datatype Result<+T, +E> = Ok(value: T) | Err(error: E)

  const U64_LIMIT: int := 0x1_0000_0000_0000_0000

  /** Sizes and hash values are unsigned 64-bit integers. */
  type u64 = x: int | 0 <= x < U64_LIMIT

  type u8 = x: int | 0 <= x < 256

  /** A filesystem path, as the sequence of its components. */
  type Path = seq<string>

  function Min(a: int, b: int): int {
    if a <= b then a else b
  }

  /** `prefix` is a leading run of components of `p`. */
  predicate IsPrefix(prefix: Path, p: Path) {
    |prefix| <= |p| && p[..|prefix|] == prefix
  }
}
