/** Facts about the 64-bit machine the kernel runs on, shared by every component. */
module Machine {
  const U64_LIMIT: nat := 0x1_0000_0000_0000_0000

  /** An unsigned 64-bit word, used for addresses and sizes. */
  type u64 = x: nat | x < U64_LIMIT

  /** An unsigned 8-bit byte. */
  type byte = x: nat | x < 256

  datatype Option<+T> = None | Some(value: T)

  function Min(a: int, b: int): int {
    if a < b then a else b
  }
}
