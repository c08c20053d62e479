/** The machine word of the program: `unsigned` has 32 bits. */
module Words {

  const WORD: nat := 0x1_0000_0000
}
