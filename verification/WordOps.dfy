/** What the CRC register and the hash do with words. */
module WordOps {
  function Xor(x: bv32, y: bv32): (z: bv32) {
    x ^ y
  }
}
