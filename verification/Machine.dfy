/** Word arithmetic and page geometry shared by the kernel models. */
module Machine {

  const PAGE: nat := 4096
  const U64: nat := 0x1_0000_0000_0000_0000

  /** What a 64-bit unsigned addition stores. */
  function Add64(a: nat, b: nat): (r: nat)
    requires a < U64 && b < U64
    ensures r < U64
  {
    if a + b < U64 then a + b else a + b - U64
  }

  /** The repository as it stands, or with the one-line repair named in README.md. */
  datatype Version = AsCommitted | Corrected

  datatype Option<+T> = None | Some(value: T)

  function Max(a: int, b: int): int {
    if a > b then a else b
  }

  function Min(a: int, b: int): int {
    if a < b then a else b
  }

  /** Page p holds at least one of the s bytes that start at address a. */
  predicate Touches(a: nat, s: nat, p: nat) {
    s > 0 && a < (p + 1) * PAGE && p * PAGE < a + s
  }
}
