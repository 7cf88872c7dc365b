/**
 The NetFn/LUN packing of include/ipmi_netfn.h. A netfn_lun byte holds the
 6-bit Network Function in its upper bits and the 2-bit Logical Unit Number in
 its lower bits; a request NetFn is even and the matching response NetFn is
 the next odd value. The macros shift and mask non-negative values, so they are
 written here as division and remainder by powers of two; NetFnIsShift and
 IsResponse's contract state that these are the macros' shifts and masks on
 the byte, and MakeNetFnLunBitsAreSum checks, on 16-bit vectors, that the
 macro's shift and OR is a sum.
 */
module IpmiNetFn {
  import opened CTypes

  /** IPMI_GET_NETFN: the upper six bits, `netfn_lun >> 2`. */
  function GetNetFn(netFnLun: Byte): (netFn: Byte)
    ensures netFn < 64
  {
    netFnLun / 4
  }

  /** IPMI_GET_LUN: the lower two bits, `netfn_lun & 0x3`. */
  function GetLun(netFnLun: Byte): (lun: Byte)
    ensures lun < 4
  {
    netFnLun % 4
  }

  /**
   IPMI_MAKE_NETFN_LUN: `(netfn << 2) | (lun & 0x03)`. The macro's result is a
   C int, not a uint8_t, so it is not truncated here: it exceeds a byte when
   the NetFn does not fit in six bits.
   */
  function MakeNetFnLun(netFn: Byte, lun: Byte): (packed: nat)
    ensures packed < 1024
    ensures netFn < 64 <==> packed < 256
  {
    netFn * 4 + lun % 4
  }

  /** IPMI_IS_RESPONSE: the lowest bit of the NetFn, i.e. bit 2 of netfn_lun. */
  predicate IsResponse(netFnLun: Byte)
    ensures IsResponse(netFnLun) <==> netFnLun % 8 >= 4
  {
    GetNetFn(netFnLun) % 2 != 0
  }

  /** The request NetFn codes of ipmi_netfn_t. */
  datatype NetFn =
    | Chassis | Bridge | Sensor | App | Firmware | Storage | Transport | GroupExt | Oem
  {
    function Code(): (r: Byte)
      ensures r % 2 == 0 && r < 64
    {
      match this
      case Chassis => 0x00
      case Bridge => 0x02
      case Sensor => 0x04
      case App => 0x06
      case Firmware => 0x08
      case Storage => 0x0A
      case Transport => 0x0C
      case GroupExt => 0x2C
      case Oem => 0x30
    }
  }

  /** On a byte, shifting right by 2 is division by 4 and masking with 3 is the remainder by 4. */
  lemma ShiftIsDiv(b: bv8)
    ensures b >> 2 == b / 4 && b & 3 == b % 4
  {
  }

  /** Division and remainder by 4 give the same value on a byte and on its integer. */
  lemma DivCommutes(b: bv8)
    ensures (b / 4) as int == (b as int) / 4
    ensures (b % 4) as int == (b as int) % 4
  {
  }

  /** GetNetFn and GetLun are the macros' `>> 2` and `& 0x3` on the byte b. */
  lemma NetFnIsShift(b: bv8)
    ensures GetNetFn(b as int) == ((b >> 2) as int)
    ensures GetLun(b as int) == ((b & 3) as int)
  {
    ShiftIsDiv(b);
    DivCommutes(b);
  }

  /** Every byte is its NetFn and its LUN put back together. */
  lemma NetFnLunDecomposition(x: Byte)
    ensures 4 * GetNetFn(x) + GetLun(x) == x
  {
  }

  /**
   The macro's `(netfn << 2) | (lun & 0x03)`, evaluated bit by bit on the
   16-bit values a C int holds here, is the sum `4 * netfn + lun % 4`, which
   MakeNetFnLun uses: the two operands of the OR have no bit in common.
   */
  lemma MakeNetFnLunBitsAreSum(netFn: bv16, lun: bv16)
    requires netFn < 256 && lun < 256
    ensures (netFn << 2) | (lun & 0x3) == netFn * 4 + lun % 4
  {
  }

  /** A six-bit NetFn packs into a byte from which both parts come back. */
  lemma MakeNetFnLunRoundTrip(netFn: Byte, lun: Byte)
    requires netFn < 64
    ensures MakeNetFnLun(netFn, lun) < 256
    ensures GetNetFn(MakeNetFnLun(netFn, lun)) == netFn
    ensures GetLun(MakeNetFnLun(netFn, lun)) == lun % 4
  {
  }

  /** IsResponse is the macro's `(netfn_lun >> 2) & 0x01` on the byte b. */
  lemma IsResponseIsShiftAndMask(b: bv8)
    ensures IsResponse(b as int) <==> ((b >> 2) & 1) != 0
  {
  }

  /** Each catalogued code packs as a request, and the next code as its response. */
  lemma NetFnCodeParity(v: NetFn, lun: Byte)
    ensures MakeNetFnLun(v.Code(), lun) < 256 && !IsResponse(MakeNetFnLun(v.Code(), lun))
    ensures MakeNetFnLun(v.Code() + 1, lun) < 256 && IsResponse(MakeNetFnLun(v.Code() + 1, lun))
  {
    MakeNetFnLunRoundTrip(v.Code(), lun);
    MakeNetFnLunRoundTrip(v.Code() + 1, lun);
  }

  /**
   Adding one to the raw netfn_lun byte (with uint8_t wrap-around) changes
   IS_RESPONSE exactly when the LUN is 3: otherwise only the LUN moves and the
   NetFn, with its parity, stays as it was.
   */
  lemma ByteIncrementFlipsParityIffLun3(x: Byte)
    ensures IsResponse(ToUint8(x + 1)) != IsResponse(x) <==> GetLun(x) == 3
  {
    var y := ToUint8(x + 1);
    assert IsResponse(x) <==> (x / 4) % 2 == 1;
    assert IsResponse(y) <==> (y / 4) % 2 == 1;
    if x == 255 {
      assert y == 0;
    } else {
      assert y == x + 1;
    }
  }

  /**
   The value 0x06, which the unit tests use as "Application request", is NetFn 1
   with LUN 2 once unpacked: an odd NetFn, so IS_RESPONSE holds for it. The
   packed request byte for the App NetFn is 0x18.
   */
  lemma AppCodeUnpackedIsResponse()
    ensures GetNetFn(0x06) == 1 && GetLun(0x06) == 2 && IsResponse(0x06)
    ensures MakeNetFnLun(NetFn.App.Code(), 0) == 0x18 && !IsResponse(0x18)
  {
  }
}
