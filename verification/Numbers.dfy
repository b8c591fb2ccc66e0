/** Minimum, maximum and 64-bit machine words. */
module Numbers {
  function Min(a: int, b: int): int { if a <= b then a else b }

  function Max(a: int, b: int): int { if a >= b then a else b }

  const TWO47: int := 0x8000_0000_0000
  const TWO48: int := 0x1_0000_0000_0000
  const TWO63: int := 0x8000_0000_0000_0000
  const TWO64: int := 0x1_0000_0000_0000_0000

  /** The bit pattern of a signed number, and the signed number of a pattern. */
  function Pattern(x: int): nat { x % TWO64 }

  function Signed(p: int): int { if p < TWO63 then p else p - TWO64 }
}
