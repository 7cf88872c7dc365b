/**
 The fixed-width unsigned integers of <stdint.h> that the IPMI core uses,
 as bounded mathematical integers. Truncating conversions are written out,
 so every place where C silently wraps is visible in the model.
 */
module CTypes {

  /** uint8_t */
  type Byte = x: int | 0 <= x < 256

  /** 2^32, the modulus of uint32_t arithmetic. */
  const Uint32Modulus: nat := 0x1_0000_0000

  /** Conversion of an int to uint8_t: reduction modulo 256 (also for negative values). */
  function ToUint8(x: int): (r: Byte)
    ensures (x - r) % 256 == 0
  {
    x % 256
  }

  /** Conversion of an int to uint32_t: reduction modulo 2^32. */
  function ToUint32(x: int): (r: nat)
    ensures r < Uint32Modulus
    ensures (x - r) % Uint32Modulus == 0
    ensures 0 <= x < Uint32Modulus ==> r == x
  {
    x % Uint32Modulus
  }
}
