/** Numbers below 256 and the machine's bytes. */
module EightBits {
  lemma IntBack(x: int)
    requires 0 <= x < 256
    ensures (x as bv8) as int == x
  {
  }
}
