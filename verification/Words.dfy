/** The width of an unsigned int of the machine. */
module Words {
  const WORD32: nat := 0x1_0000_0000
}
