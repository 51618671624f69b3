/** Units of time and the width of 32-bit counters. */
module Units {
  const NANOS_IN_A_MICRO: nat := 1000
  const NANOS_IN_A_MILLI: nat := 1_000_000

  const MODULUS_32: nat := 0x1_0000_0000
}
