/** 64-bit words: the unsigned reading of a signed number. */
module Words {

  const WORD := 0x1_0000_0000_0000_0000

  function AsUnsigned(n: int): nat {
    n % WORD
  }
}
