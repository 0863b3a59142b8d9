/** The defaults `Split::new` and `Merge::new` start from, and the buffer-capacity rule both use. */
module Config {

  /** The default chunk size: 2 MiB. */
  const CHUNK_SIZE_DEFAULT: nat := 2 * 1024 * 1024

  /** The default upper bound of a buffer's capacity: 10 MiB. */
  const BUFFER_CAPACITY_MAX_DEFAULT: nat := 10 * 1024 * 1024

  /** `a.min(b)`: a buffer as large as what it serves, but never over the bound. */
  function Min(a: nat, b: nat): (m: nat)
    ensures m <= a && m <= b
    ensures m == a || m == b
  {
    if a <= b then a else b
  }
}
