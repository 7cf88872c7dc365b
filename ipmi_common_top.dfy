/**
 The repository's top-level ipmi_common.c, which holds a second copy of
 calc_checksum with the same uint8_t accumulator loop.
 */
module IpmiCommonTop {
  import opened CTypes
  import IpmiChecksum

  /**
   calc_checksum (top-level copy): reads data[0..len) only, changes nothing,
   and returns the byte that brings the running sum to 0 modulo 256; for an
   empty run the loop does not run and the result is 0.
   */
  method CalcChecksum(data: array<Byte>, len: nat) returns (r: Byte)
    requires len <= data.Length
    ensures r == IpmiChecksum.Checksum(data[..len])
    ensures (IpmiChecksum.Sum(data[..len]) % 256 + r) % 256 == 0
    ensures len == 0 ==> r == 0
  {
    var sum: Byte := 0;
    for i := 0 to len
      invariant sum == IpmiChecksum.Sum(data[..i]) % 256
    {
      assert data[..i + 1][..i] == data[..i];
      sum := ToUint8(sum + data[i]);
    }
    r := ToUint8(0 - sum);
  }

  /** The two copies of calc_checksum return the same byte on every input. */
  method CopiesAgree(data: array<Byte>, len: nat) returns (top: Byte, src: Byte)
    requires len <= data.Length
    ensures top == src
  {
    top := CalcChecksum(data, len);
    src := IpmiChecksum.CalcChecksum(data, len);
  }
}
