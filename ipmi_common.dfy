/**
 The IPMB message record of include/ipmi_common.h and the operations of
 src/ipmi_common.c that compute, check and fill in its two checksums.

 Checksum1 covers the header (rs_addr, netfn_lun); checksum2 covers the body
 (rq_addr, rq_seq_lun, cmd, the completion code only for a response, and the
 first data_len payload bytes). A message validates when each group followed by
 its check byte sums to 0 modulo 256.
 */
module IpmiCommon {
  import opened CTypes
  import opened IpmiNetFn
  import opened IpmiChecksum

  /** IPMI_PACKET_MAX_BUFFER: the capacity of the payload buffer. */
  const Capacity: nat := 256

  /** The uint8_t value of the -3 that ipmi_calc_checksum2 returns for an oversized payload. */
  const LengthErrorChecksum: Byte := ToUint8(-3)

  /**
   ipmi_msg_t. The payload buffer has a fixed capacity; data_len is a separate
   field that nothing forces to stay within it.
   */
  class Msg {
    var rsAddr: Byte
    var netFnLun: Byte
    var checksum1: Byte
    var rqAddr: Byte
    var rqSeqLun: Byte
    var cmd: Byte
    var completionCode: Byte
    const data: array<Byte>
    var checksum2: Byte
    var dataLen: nat

    /** The payload buffer holds exactly IPMI_PACKET_MAX_BUFFER bytes. */
    predicate Valid()
    {
      data.Length == Capacity
    }

    /** A zero-initialised message, as a C initialiser leaves the fields it does not name. */
    constructor ()
      ensures Valid() && fresh(data)
      ensures rsAddr == 0 && netFnLun == 0 && checksum1 == 0
      ensures rqAddr == 0 && rqSeqLun == 0 && cmd == 0 && completionCode == 0
      ensures checksum2 == 0 && dataLen == 0
      ensures forall k :: 0 <= k < Capacity ==> data[k] == 0
    {
      rsAddr, netFnLun, checksum1 := 0, 0, 0;
      rqAddr, rqSeqLun, cmd, completionCode := 0, 0, 0, 0;
      data := new Byte[Capacity](_ => 0);
      checksum2, dataLen := 0, 0;
    }

    /** The bytes checksum1 covers: rs_addr and netfn_lun, in this order. */
    function HeaderInput(): (h: seq<Byte>)
      reads this
      ensures Sum(h) == rsAddr + netFnLun
    {
      SumAppend([rsAddr], [netFnLun]);
      SumSingleton(rsAddr);
      SumSingleton(netFnLun);
      assert [rsAddr, netFnLun] == [rsAddr] + [netFnLun];
      [rsAddr, netFnLun]
    }

    /**
     The bytes checksum2 covers, in this order: rq_addr, rq_seq_lun, cmd, the
     completion code if netfn_lun marks a response, then data[0..data_len).
     */
    function Checksum2Input(): (s: seq<Byte>)
      reads this, data
      requires Valid() && dataLen <= Capacity
      ensures |s| == StagedLength(IsResponse(netFnLun), dataLen)
      ensures Sum(s) == rqAddr + rqSeqLun + cmd
                        + (if IsResponse(netFnLun) then completionCode else 0)
                        + Sum(data[..dataLen])
    {
      var fixed := [rqAddr, rqSeqLun, cmd];
      var cc: seq<Byte> := if IsResponse(netFnLun) then [completionCode] else [];
      SumAppend(fixed + cc, data[..dataLen]);
      SumAppend(fixed, cc);
      assert fixed == [rqAddr] + [rqSeqLun] + [cmd];
      SumAppend([rqAddr] + [rqSeqLun], [cmd]);
      SumAppend([rqAddr], [rqSeqLun]);
      SumSingleton(rqAddr);
      SumSingleton(rqSeqLun);
      SumSingleton(cmd);
      SumSingleton(completionCode);
      fixed + cc + data[..dataLen]
    }

    predicate HeaderOk()
      reads this
    {
      ChecksumOk(HeaderInput(), checksum1)
    }

    predicate BodyOk()
      reads this, data
      requires Valid() && dataLen <= Capacity
    {
      ChecksumOk(Checksum2Input(), checksum2)
    }
  }

  /** memcpy(dst + offset, src, n), for buffers that do not overlap or coincide exactly. */
  method MemCpy(dst: array<Byte>, offset: nat, src: array<Byte>, n: nat)
    requires offset + n <= dst.Length && n <= src.Length
    requires dst != src || offset == 0
    modifies dst
    ensures dst[..offset] == old(dst[..offset])
    ensures dst[offset..offset + n] == old(src[..n])
    ensures dst[offset + n..] == old(dst[offset + n..])
  {
    for k := 0 to n
      invariant forall j :: 0 <= j < k ==> dst[offset + j] == old(src[j])
      invariant forall j :: 0 <= j < dst.Length && !(offset <= j < offset + k) ==> dst[j] == old(dst[j])
    {
      dst[offset + k] := src[k];
    }
    assert dst[offset..offset + n] == old(src[..n]) by {
      forall j | 0 <= j < n ensures dst[offset..offset + n][j] == old(src[..n])[j] {
      }
    }
  }

  /** Size of the staging buffer: the four body fields ahead of a full payload. */
  const TmpSize: nat := 4 + Capacity

  /** Size of the staging buffer as the source declares it: sizeof rq_addr + sizeof rq_seq_lun + capacity. */
  const TmpSizeAsWritten: nat := 1 + 1 + Capacity

  /** How many bytes ipmi_calc_checksum2 stages: three fields, the optional completion code, the payload. */
  function StagedLength(response: bool, dataLen: nat): (n: nat)
    ensures n >= 3 + dataLen
  {
    3 + (if response then 1 else 0) + dataLen
  }

  /**
   The staging buffer as declared overflows exactly for a request with a full
   256-byte payload and for a response with 255 or 256 payload bytes.
   */
  lemma TmpOverflowAsWritten(response: bool, dataLen: nat)
    requires dataLen <= Capacity
    ensures StagedLength(response, dataLen) > TmpSizeAsWritten
            <==> dataLen > (if response then 254 else 255)
  {
  }

  /** A buffer of TmpSize bytes holds what is staged for every admissible length. */
  lemma TmpSizeSuffices(response: bool, dataLen: nat)
    requires dataLen <= Capacity
    ensures StagedLength(response, dataLen) <= TmpSize
  {
  }

  /**
   ipmi_calc_checksum2: the checksum of the body fields, staged in a local
   buffer. For a payload length above the capacity it returns -3 truncated to
   a byte without reading the payload; that value is an ordinary checksum
   value too (see LengthErrorIsAChecksum). The bytes are staged in a buffer of
   4 + 256 bytes, where the source declares 258, too few for a full payload
   (see TmpOverflowAsWritten).
   */
  method CalcChecksum2(msg: Msg) returns (r: Byte)
    requires msg.Valid()
    ensures msg.dataLen > Capacity ==> r == LengthErrorChecksum
    ensures msg.dataLen <= Capacity ==> r == Checksum(msg.Checksum2Input())
    ensures msg.dataLen <= Capacity ==> ChecksumOk(msg.Checksum2Input(), r)
  {
    if msg.dataLen > Capacity {
      return ToUint8(-3);
    }
    TmpSizeSuffices(IsResponse(msg.netFnLun), msg.dataLen);
    var tmp := new Byte[TmpSize];
    var i := 0;
    tmp[i] := msg.rqAddr;
    i := i + 1;
    tmp[i] := msg.rqSeqLun;
    i := i + 1;
    tmp[i] := msg.cmd;
    i := i + 1;
    if IsResponse(msg.netFnLun) {
      tmp[i] := msg.completionCode;
      i := i + 1;
    }
    ghost var fields := tmp[..i];
    assert fields == [msg.rqAddr, msg.rqSeqLun, msg.cmd]
                     + (if IsResponse(msg.netFnLun) then [msg.completionCode] else []);
    MemCpy(tmp, i, msg.data, msg.dataLen);
    i := i + msg.dataLen;
    assert tmp[..i] == fields + msg.data[..msg.dataLen] by {
      assert tmp[..i] == tmp[..i - msg.dataLen] + tmp[i - msg.dataLen..i];
    }
    r := CalcChecksum(tmp, i);
  }

  /**
   validate_ipmi_checksum. Checks the length, then the header, then the body,
   and reports the first failure: -3 for a payload length above the capacity,
   -1 for a bad checksum1, -2 for a bad checksum2, 0 when both hold. It has no
   other outcome and changes nothing.
   */
  method ValidateChecksum(msg: Msg) returns (r: int)
    requires msg.Valid()
    ensures r in {0, -1, -2, -3}
    ensures r == -3 <==> msg.dataLen > Capacity
    ensures r == -1 <==> msg.dataLen <= Capacity && !msg.HeaderOk()
    ensures r == -2 <==> msg.dataLen <= Capacity && msg.HeaderOk() && !msg.BodyOk()
    ensures r == 0 <==> msg.dataLen <= Capacity && msg.HeaderOk() && msg.BodyOk()
  {
    if msg.dataLen > 0 && msg.dataLen > msg.data.Length {
      return -3;
    }
    assert Sum(msg.HeaderInput()) == msg.rsAddr + msg.netFnLun;
    if (msg.rsAddr + msg.netFnLun + msg.checksum1) % 256 != 0 {
      return -1;
    }
    var payloadSum := SumBuffer(msg.data, msg.dataLen);
    SumOfPacketFitsUint32(msg.data[..msg.dataLen]);
    var msgSum := ToUint32(msg.rqAddr + msg.rqSeqLun + msg.cmd + payloadSum + msg.checksum2);
    if IsResponse(msg.netFnLun) {
      msgSum := ToUint32(msgSum + msg.completionCode);
    }
    assert Sum(msg.Checksum2Input()) == msg.rqAddr + msg.rqSeqLun + msg.cmd
      + (if IsResponse(msg.netFnLun) then msg.completionCode else 0) + payloadSum;
    if msgSum % 256 != 0 {
      return -2;
    }
    return 0;
  }

  /**
   build_ipmi_response. Swaps the two addresses, adds one to the raw netfn_lun
   byte, copies the sequence/LUN byte and the command, stores the completion
   code and computes checksum1; all of this happens before the payload length
   is checked. If the length is within capacity, it copies the payload, stores
   its length, computes checksum2 and returns 0: the response then validates.
   Otherwise it sets data_len to 0, leaves the payload buffer and checksum2 as
   they were, and returns -1.

   The request is read while the response is written, so when both are the
   same message, rq_addr is taken from the rs_addr just written over it.
   */
  method BuildResponse(req: Msg, resp: Msg, completionCode: Byte, payload: array<Byte>, payloadLen: nat)
    returns (r: int)
    requires req.Valid() && resp.Valid()
    requires payloadLen <= Capacity ==> payloadLen <= payload.Length
    modifies resp, resp.data
    ensures r == (if payloadLen <= Capacity then 0 else -1)
    ensures resp.rsAddr == old(req.rqAddr)
    ensures resp.netFnLun == ToUint8(old(req.netFnLun) + 1)
    ensures resp.checksum1 == Checksum(resp.HeaderInput())
    ensures resp.rqAddr == (if req == resp then old(req.rqAddr) else old(req.rsAddr))
    ensures resp.rqSeqLun == old(req.rqSeqLun) && resp.cmd == old(req.cmd)
    ensures resp.completionCode == completionCode
    ensures resp.HeaderOk()
    ensures r == 0 ==> resp.dataLen == payloadLen
                       && resp.data[..payloadLen] == old(payload[..payloadLen])
                       && resp.data[payloadLen..] == old(resp.data[payloadLen..])
    ensures r == 0 ==> resp.checksum2 == Checksum(resp.Checksum2Input())
    ensures r == 0 ==> resp.BodyOk()
    ensures r == -1 ==> resp.dataLen == 0 && resp.checksum2 == old(resp.checksum2)
                        && resp.data[..] == old(resp.data[..])
  {
    resp.rsAddr := req.rqAddr;
    resp.netFnLun := ToUint8(req.netFnLun + 1);
    var header := new Byte[2];
    header[0], header[1] := resp.rsAddr, resp.netFnLun;
    assert header[..2] == resp.HeaderInput();
    resp.checksum1 := CalcChecksum(header, 2);
    resp.rqAddr := req.rsAddr;
    resp.rqSeqLun := req.rqSeqLun;
    resp.cmd := req.cmd;
    resp.completionCode := completionCode;

    if payloadLen <= Capacity {
      MemCpy(resp.data, 0, payload, payloadLen);
      resp.dataLen := payloadLen;
    } else {
      resp.dataLen := 0;
      return -1;
    }

    resp.checksum2 := CalcChecksum2(resp);
    return 0;
  }

  /** checksum1 is right exactly when it is the checksum of the header group. */
  lemma HeaderOkIff(msg: Msg)
    ensures msg.HeaderOk() <==> msg.checksum1 == Checksum(msg.HeaderInput())
    ensures msg.HeaderOk() <==> (msg.rsAddr + msg.netFnLun + msg.checksum1) % 256 == 0
    ensures Checksum(msg.HeaderInput()) == ToUint8(0 - (msg.rsAddr + msg.netFnLun))
  {
    ChecksumOkIff(msg.HeaderInput(), msg.checksum1);
  }

  /** checksum2 is right exactly when it is what ipmi_calc_checksum2 computes. */
  lemma BodyOkIff(msg: Msg)
    requires msg.Valid() && msg.dataLen <= Capacity
    ensures msg.BodyOk() <==> msg.checksum2 == Checksum(msg.Checksum2Input())
  {
    ChecksumOkIff(msg.Checksum2Input(), msg.checksum2);
  }

  /**
   Checksum2 reads nothing of the header except whether netfn_lun marks a
   response: two messages that agree on the body fields and on that bit have
   the same checksum2 input, whatever their rs_addr, checksum1 and checksum2.
   */
  lemma Checksum2InputIgnoresHeader(a: Msg, b: Msg)
    requires a.Valid() && b.Valid() && a.dataLen <= Capacity
    requires a.rqAddr == b.rqAddr && a.rqSeqLun == b.rqSeqLun && a.cmd == b.cmd
    requires IsResponse(a.netFnLun) == IsResponse(b.netFnLun)
    requires IsResponse(a.netFnLun) ==> a.completionCode == b.completionCode
    requires a.dataLen == b.dataLen && a.data[..a.dataLen] == b.data[..b.dataLen]
    ensures a.Checksum2Input() == b.Checksum2Input()
  {
  }

  /** The completion code enters checksum2 only for a response. */
  lemma CompletionCodeOnlyForResponses(msg: Msg)
    requires msg.Valid() && msg.dataLen <= Capacity
    ensures IsResponse(msg.netFnLun) ==> msg.Checksum2Input()[3] == msg.completionCode
    ensures !IsResponse(msg.netFnLun) ==> msg.Checksum2Input()[3..] == msg.data[..msg.dataLen]
  {
  }

  /** 0xFD, the length-error value of ipmi_calc_checksum2, is also the checksum of the body [3]. */
  lemma LengthErrorIsAChecksum()
    ensures LengthErrorChecksum == 0xFD
    ensures Checksum([3]) == LengthErrorChecksum
  {
    SumSingleton(3);
  }
}
