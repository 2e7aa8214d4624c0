/** The machine words of the modelled code. */
module Words {
  /** How many values an unsigned 32-bit word has. */
  const U32: nat := 0x1_0000_0000

  /** How many values an unsigned 64-bit word has. */
  const U64: nat := 0x1_0000_0000_0000_0000

  /** How many values two 64-bit words have. */
  const U128: nat := 0x1_0000_0000_0000_0000_0000_0000_0000_0000
}
