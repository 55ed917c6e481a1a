/** The sizes of machine words. */
module Words {

  /** One more than the largest unsigned 32-bit number. */
  const DWORD: nat := 0x1_0000_0000

  /** One more than the largest unsigned 64-bit number. */
  const QWORD: nat := 0x1_0000_0000_0000_0000
}
