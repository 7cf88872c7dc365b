/**
 The checksum engine of src/ipmi_common.c: the widened byte sum and the IPMB
 two's-complement checksum. Sum and Checksum are the mathematical definitions;
 SumBuffer and CalcChecksum are the C loops, each proved to compute them.
 */
module IpmiChecksum {
  import opened CTypes

  /** The exact (unbounded) sum of a run of bytes. */
  function Sum(s: seq<Byte>): nat
  {
    if s == [] then 0 else Sum(s[..|s| - 1]) + s[|s| - 1]
  }

  /** The two's-complement checksum: the byte that brings the sum to 0 modulo 256. */
  function Checksum(s: seq<Byte>): Byte
  {
    (256 - Sum(s) % 256) % 256
  }

  /** A byte run followed by its check byte sums to 0 modulo 256. */
  predicate ChecksumOk(s: seq<Byte>, check: Byte)
  {
    (Sum(s) + check) % 256 == 0
  }

  lemma {:induction false} SumAppend(a: seq<Byte>, b: seq<Byte>)
    ensures Sum(a + b) == Sum(a) + Sum(b)
  {
    if b == [] {
      assert a + b == a;
    } else {
      assert (a + b)[..|a + b| - 1] == a + b[..|b| - 1];
      SumAppend(a, b[..|b| - 1]);
    }
  }

  lemma SumSingleton(x: Byte)
    ensures Sum([x]) == x
  {
    assert [x][..0] == [];
  }

  /** No byte exceeds 255, so n bytes never sum to more than 255 * n. */
  lemma {:induction false} SumBound(s: seq<Byte>)
    ensures Sum(s) <= 255 * |s|
  {
    if s != [] {
      SumBound(s[..|s| - 1]);
    }
  }

  /** Sum of a buffer of at most 256 bytes fits in a uint32_t with room to spare. */
  lemma SumOfPacketFitsUint32(s: seq<Byte>)
    requires |s| <= 256
    ensures Sum(s) <= 255 * 256 < Uint32Modulus
  {
    SumBound(s);
  }

  /**
   The checksum is the unique check byte of a run: appending it makes the sum
   vanish modulo 256, and no other byte does.
   */
  lemma ChecksumOkIff(s: seq<Byte>, check: Byte)
    ensures ChecksumOk(s, check) <==> check == Checksum(s)
  {
  }

  /** The empty run has checksum 0. */
  lemma ChecksumEmpty()
    ensures Checksum([]) == 0
  {
  }

  /** The checksum depends on the bytes only through their sum modulo 256. */
  lemma ChecksumOfSumMod(a: seq<Byte>, b: seq<Byte>)
    requires Sum(a) % 256 == Sum(b) % 256
    ensures Checksum(a) == Checksum(b)
  {
  }

  /**
   sum_buffer: a uint32_t accumulator over buf[0..buf_len). The result is the
   exact sum modulo 2^32, and the exact sum itself whenever it cannot wrap,
   in particular for the at most 256 bytes of a message payload.
   */
  method SumBuffer(buf: array<Byte>, bufLen: nat) returns (sum: nat)
    requires bufLen <= buf.Length
    ensures sum == ToUint32(Sum(buf[..bufLen]))
    ensures Sum(buf[..bufLen]) < Uint32Modulus ==> sum == Sum(buf[..bufLen])
    ensures bufLen <= 256 ==> sum == Sum(buf[..bufLen])
  {
    sum := 0;
    for i := 0 to bufLen
      invariant sum == ToUint32(Sum(buf[..i]))
    {
      assert buf[..i + 1][..i] == buf[..i];
      sum := ToUint32(sum + buf[i]);
    }
    assert buf[..bufLen] == buf[..bufLen];
    if bufLen <= 256 {
      SumOfPacketFitsUint32(buf[..bufLen]);
    }
  }

  /**
   calc_checksum: a uint8_t accumulator over data[0..len), negated with
   uint8_t wrap-around. It returns the checksum of the run, which brings the
   run's sum to 0 modulo 256; an empty run gives 0.
   */
  method CalcChecksum(data: array<Byte>, len: nat) returns (r: Byte)
    requires len <= data.Length
    ensures r == Checksum(data[..len])
    ensures ChecksumOk(data[..len], r)
    ensures len == 0 ==> r == 0
  {
    var sum: Byte := 0;
    for i := 0 to len
      invariant sum == Sum(data[..i]) % 256
    {
      assert data[..i + 1][..i] == data[..i];
      sum := ToUint8(sum + data[i]);
    }
    r := ToUint8(0 - sum);
    ChecksumOkIff(data[..len], r);
  }

  /** test/test_ipmi_common.c:10-20 */
  lemma UnitTestValues()
    ensures Checksum([0x20, 0x06]) == 0xDA
    ensures Sum([1, 2, 3, 4]) == 10
  {
    assert [0x20, 0x06][..1] == [0x20] && [0x20][..0] == [];
    assert [1, 2, 3, 4][..3] == [1, 2, 3] && [1, 2, 3][..2] == [1, 2];
    assert [1, 2][..1] == [1] && [1][..0] == [];
  }
}
