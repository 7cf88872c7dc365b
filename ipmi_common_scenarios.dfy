/**
 The situations exercised by test/test_ipmi_common.c, replayed against the
 contracts of IpmiCommon: each assertion is what a caller can conclude from
 those contracts alone.
 */
module IpmiCommonScenarios {
  import opened CTypes
  import opened IpmiNetFn
  import opened IpmiChecksum
  import opened IpmiCommon

  /** A request with rs_addr 0x20, netfn_lun 0x06, rq_addr 0x81, rq_seq_lun 0, cmd 0x01, no payload. */
  method GetDeviceIdRequest() returns (msg: Msg)
    ensures msg.Valid() && fresh(msg) && fresh(msg.data)
    ensures msg.rsAddr == 0x20 && msg.netFnLun == 0x06 && msg.rqAddr == 0x81
    ensures msg.rqSeqLun == 0 && msg.cmd == 0x01 && msg.completionCode == 0 && msg.dataLen == 0
  {
    msg := new Msg();
    msg.rsAddr, msg.netFnLun, msg.rqAddr, msg.cmd := 0x20, 0x06, 0x81, 0x01;
  }

  /** The "request" of the tests is a response by IPMI_IS_RESPONSE; its zero completion code hides that. */
  method MislabelledRequest()
  {
    var msg := GetDeviceIdRequest();
    var c2 := CalcChecksum2(msg);
    AppCodeUnpackedIsResponse();
    assert msg.Checksum2Input() == [0x81, 0x00, 0x01] + [0x00];
    SumAppend([0x81, 0x00, 0x01], [0x00]);
    SumSingleton(0);
    ChecksumOfSumMod(msg.Checksum2Input(), [0x81, 0x00, 0x01]);
    assert c2 == Checksum([0x81, 0x00, 0x01]);
  }

  /** Both checksums computed, then validated; then each one corrupted on its own. */
  method ValidRequestAndCorruptions()
  {
    var msg := GetDeviceIdRequest();
    var header := new Byte[2];
    header[0], header[1] := msg.rsAddr, msg.netFnLun;
    assert header[..2] == msg.HeaderInput();
    msg.checksum1 := CalcChecksum(header, 2);
    msg.checksum2 := CalcChecksum2(msg);
    var r := ValidateChecksum(msg);
    assert r == 0;

    var good2 := msg.checksum2;
    msg.checksum2 := ToUint8(good2 as int + 1);
    BodyOkIff(msg);
    r := ValidateChecksum(msg);
    assert r == -2;

    msg.checksum2 := good2;
    msg.checksum1 := ToUint8(msg.checksum1 as int + 1);
    HeaderOkIff(msg);
    r := ValidateChecksum(msg);
    assert r == -1;

    msg.dataLen := 999;
    r := ValidateChecksum(msg);
    assert r == -3;
  }

  /** A response (netfn_lun 0x07) with payload DE AD BE EF checksums exactly these eight bytes. */
  method ResponseWithData()
  {
    var msg := new Msg();
    msg.rqAddr, msg.rqSeqLun, msg.cmd, msg.netFnLun := 0x81, 0x12, 0x01, 0x07;
    msg.data[0], msg.data[1], msg.data[2], msg.data[3] := 0xDE, 0xAD, 0xBE, 0xEF;
    msg.dataLen := 4;
    var c2 := CalcChecksum2(msg);
    assert IsResponse(0x07);
    assert msg.data[..4] == [0xDE, 0xAD, 0xBE, 0xEF];
    assert msg.Checksum2Input() == [0x81, 0x12, 0x01, 0x00, 0xDE, 0xAD, 0xBE, 0xEF];
    assert c2 == Checksum([0x81, 0x12, 0x01, 0x00, 0xDE, 0xAD, 0xBE, 0xEF]);
  }

  /** An oversized payload length yields the 0xFD checksum and validation result -3. */
  method OversizedLength()
  {
    var msg := GetDeviceIdRequest();
    msg.dataLen := 999;
    msg.checksum2 := CalcChecksum2(msg);
    LengthErrorIsAChecksum();
    assert msg.checksum2 == 0xFD;
    var r := ValidateChecksum(msg);
    assert r == -3;
  }

  /** A full 256-byte payload with both checksums computed validates. */
  method FullPayload()
  {
    var msg := GetDeviceIdRequest();
    for i := 0 to Capacity
      invariant msg.rsAddr == 0x20 && msg.netFnLun == 0x06
    {
      msg.data[i] := i;
    }
    msg.dataLen := Capacity;
    var header := new Byte[2];
    header[0], header[1] := msg.rsAddr, msg.netFnLun;
    assert header[..2] == msg.HeaderInput();
    msg.checksum1 := CalcChecksum(header, 2);
    msg.checksum2 := CalcChecksum2(msg);
    var r := ValidateChecksum(msg);
    assert r == 0;
  }

  /**
   The minimal build of the tests: the response has netfn_lun 0x07, its
   addresses swapped, a checksum2 over 20 00 01 00, and it validates.
   */
  method MinimalResponse()
  {
    var req := GetDeviceIdRequest();
    var resp := new Msg();
    var none := new Byte[0];
    var r := BuildResponse(req, resp, 0x00, none, 0);
    assert r == 0;
    assert resp.netFnLun == 0x07 && resp.rsAddr == 0x81 && resp.rqAddr == 0x20;
    assert resp.Checksum2Input() == [0x20, 0x00, 0x01, 0x00];
    var v := ValidateChecksum(resp);
    assert v == 0;
  }

  /** A build with an oversized payload fails but has already rewritten the header. */
  method OversizedBuild()
  {
    var req := GetDeviceIdRequest();
    var resp := new Msg();
    resp.checksum2 := 0x55;
    var none := new Byte[0];
    var r := BuildResponse(req, resp, 0xC0, none, 300);
    assert r == -1;
    assert resp.dataLen == 0 && resp.checksum2 == 0x55;
    assert resp.rsAddr == 0x81 && resp.netFnLun == 0x07 && resp.completionCode == 0xC0;
  }
}
