# IPMB message checksums of ipmi-emulator, in Dafny

This project models the message-integrity layer of the IPMI emulator: the IPMB
request/response record `ipmi_msg_t`, the two's-complement checksums over its two
byte groups, and the three operations that compute, check and fill them in.

- `CTypes` (`c_types.dfy`): `uint8_t` is `Byte`, an int in 0..255. Every place
  where C wraps is written out with `ToUint8` or `ToUint32`.
- `IpmiNetFn` (`ipmi_netfn.dfy`): the NetFn/LUN macros and the `ipmi_netfn_t`
  request codes. A netfn_lun byte carries a 6-bit NetFn above a 2-bit LUN, and the
  NetFn's parity marks a response.
- `IpmiChecksum` (`ipmi_checksum.dfy`): `sum_buffer` and `calc_checksum` as the C
  loops. They are proved against `Sum`, the exact byte sum, and `Checksum`, the
  byte that brings a run's sum to 0 modulo 256.
- `IpmiCommon` (`ipmi_common.dfy`): `ipmi_msg_t` is the class `Msg`. Its fields are
  updated in place, and its payload is a fixed 256-byte array with a separate
  `dataLen`. `CalcChecksum2`, `ValidateChecksum` and `BuildResponse` model
  `ipmi_calc_checksum2`, `validate_ipmi_checksum` and `build_ipmi_response`.
  `HeaderOk` and `BodyOk` are the two sum-to-zero conditions.
- `IpmiCommonTop` (`ipmi_common_top.dfy`): the second copy of `calc_checksum` in the
  top-level `ipmi_common.c`, proved to agree with the first.
- `IpmiCommonScenarios` (`ipmi_common_scenarios.dfy`): the situations of the unit
  tests, replayed as client code against the contracts above.

Behaviour the model keeps as the code has it:

- `build_ipmi_response` adds one to the raw netfn_lun byte. `IS_RESPONSE` tests the
  NetFn's low bit (bit 2 of the byte), so the response's parity flips only when the
  request's LUN is 3 (`ByteIncrementFlipsParityIffLun3`).
- The unit tests call netfn_lun `0x06` a request. The macros read it as NetFn 1
  with LUN 2, which is a response (`AppCodeUnpackedIsResponse`). The tests still
  pass because the completion code is zero.
- `ipmi_calc_checksum2` returns `(uint8_t)-3 = 0xFD` for an oversized payload. That
  byte is also an ordinary checksum (`LengthErrorIsAChecksum`).
- `build_ipmi_response` is not atomic. The header fields, checksum1 and the
  completion code are written before the length check. On failure `data_len`
  becomes 0, and the payload buffer and checksum2 keep their old values.
- With the same message passed as request and response, the code reads `rs_addr`
  after overwriting it. `BuildResponse` states the result for that case too.

Two facts about src/ipmi_common.c:73-96 are easy to get wrong:

- Building a response is not all-or-nothing. Everything except the payload,
  data_len and checksum2 is written before the length check can fail
  (src/ipmi_common.c:76-92).
- The body-checksum input of the minimal built response is `{0x20, 0x00, 0x01, 0x00}`,
  not `{0x81, 0x00, 0x01, 0x00}`. The code swaps the addresses, so the response's
  rq_addr is the request's rs_addr 0x20 (`IpmiCommonScenarios.MinimalResponse`).

The round trip of the tests follows from `HeaderOkIff` and `BodyOkIff` together
with `ValidateChecksum`'s contract. Set checksum1 to what `calc_checksum` computes
and checksum2 to what `CalcChecksum2` computes, and validation returns 0 for every
`data_len` up to 256, 256 included. If either byte is something else, validation
fails at that group.

That is a statement about the corrected `CalcChecksum2`, which stages into 4 + 256
bytes. The source's staging buffer has 258 bytes, so the source overruns it in
three cases, which is undefined behaviour:

- a 256-byte request;
- a 255-byte response;
- a 256-byte response.

The boundary test at test/test_ipmi_common.c:106-124 is one of these. Its netfn_lun
0x06 reads as a response, so it stages 260 bytes (see Findings).

## Model

| member | source | states |
|---|---|---|
| CTypes.ToUint8 | src/ipmi_common.c:19 | conversion to uint8_t keeps the value modulo 256 |
| CTypes.ToUint32 | src/ipmi_common.c:7-9 | conversion to uint32_t keeps the value modulo 2^32, lands below 2^32, and is the identity on values that fit |
| IpmiNetFn.GetNetFn | include/ipmi_netfn.h:5 | the NetFn of any byte is below 64 |
| IpmiNetFn.GetLun | include/ipmi_netfn.h:8 | the LUN of any byte is below 4 |
| IpmiNetFn.NetFnLunDecomposition | include/ipmi_netfn.h:4-8 | every byte equals 4 * NetFn + LUN |
| IpmiNetFn.MakeNetFnLunBitsAreSum | include/ipmi_netfn.h:11 | the macro's shift-and-OR equals 4 * netfn + lun % 4, because the OR's operands share no bits |
| IpmiNetFn.MakeNetFnLunRoundTrip | include/ipmi_netfn.h:10-11 | for a NetFn below 64 the packed value fits a byte, and GET_NETFN / GET_LUN return the NetFn and lun & 3 |
| IpmiNetFn.MakeNetFnLun | include/ipmi_netfn.h:10-11 | the packed value is below 1024, and it fits a byte exactly when the NetFn is below 64 |
| IpmiNetFn.IsResponse | include/ipmi_netfn.h:13-14 | IS_RESPONSE holds exactly when bit 2 of the byte is set (x mod 8 >= 4), i.e. when the NetFn is odd |
| IpmiNetFn.IsResponseIsShiftAndMask | include/ipmi_netfn.h:14 | IsResponse equals the macro's `((x >> 2) & 1) != 0` on the 8-bit byte |
| IpmiNetFn.ShiftIsDiv | include/ipmi_netfn.h:5-8 | on a byte, `>> 2` is division by 4 and `& 3` is the remainder by 4 |
| IpmiNetFn.DivCommutes | include/ipmi_netfn.h:5-8 | division and remainder by 4 agree on an 8-bit vector and on its integer value |
| IpmiNetFn.NetFnIsShift | include/ipmi_netfn.h:4-8 | GetNetFn and GetLun equal the macros' `x >> 2` and `x & 0x3` computed on the byte |
| IpmiNetFn.NetFn.Code | include/ipmi_netfn.h:15-32 | every request code is even and fits six bits |
| IpmiNetFn.NetFnCodeParity | include/ipmi_netfn.h:20-32 | code v packs as a request, and code v + 1 packs as the matching response, for any LUN |
| IpmiNetFn.ByteIncrementFlipsParityIffLun3 | src/ipmi_common.c:77 | adding one to the raw netfn_lun byte changes IS_RESPONSE exactly when the LUN is 3 |
| IpmiNetFn.AppCodeUnpackedIsResponse | test/test_ipmi_common.c:29 | 0x06 unpacks to NetFn 1, LUN 2, a response; the packed App request is 0x18 |
| IpmiChecksum.SumBound | src/ipmi_common.c:6-12 | n bytes sum to at most 255 * n |
| IpmiChecksum.SumOfPacketFitsUint32 | src/ipmi_common.c:60-61 | the sum of at most 256 bytes fits uint32_t, so the validator's sum cannot wrap |
| IpmiChecksum.SumBuffer | src/ipmi_common.c:6-12 | returns the exact byte sum modulo 2^32, which is the exact sum for at most 256 bytes |
| IpmiChecksum.CalcChecksum | src/ipmi_common.c:14-20 | returns the checksum of data[0..len); with it the sum is 0 modulo 256; empty input gives 0 |
| IpmiChecksum.ChecksumOkIff | src/ipmi_common.c:14-20 | a check byte brings the sum to 0 modulo 256 if and only if it equals the checksum |
| IpmiChecksum.ChecksumEmpty | src/ipmi_common.c:15-19 | the checksum of no bytes is 0 |
| IpmiChecksum.UnitTestValues | test/test_ipmi_common.c:10-20 | checksum of {0x20, 0x06} is 0xDA; sum of {1, 2, 3, 4} is 10 |
| IpmiCommon.Msg.constructor | include/ipmi_common.h:20-88 | a zero-initialised message whose payload buffer holds exactly 256 bytes |
| IpmiCommon.MemCpy | src/ipmi_common.c:43 | the n copied bytes land at the offset, and the rest of the destination is unchanged |
| IpmiCommon.StagedLength | src/ipmi_common.c:33-44 | at least the three fixed fields and the payload are staged |
| IpmiCommon.Msg.HeaderInput | src/ipmi_common.c:78-79 | the two-byte run that checksum1 covers sums to rs_addr + netfn_lun |
| IpmiCommon.Msg.Checksum2Input | src/ipmi_common.c:35-44 | the checksum2 input has as many bytes as ipmi_calc_checksum2 stages, and sums to rq_addr + rq_seq_lun + cmd + (completion code if response) + the payload sum |
| IpmiCommon.TmpOverflowAsWritten | src/ipmi_common.c:31-32 | the declared 258-byte staging buffer is exceeded exactly for a 256-byte request payload or a 255/256-byte response payload |
| IpmiCommon.TmpSizeSuffices | src/ipmi_common.c:31-44 | a staging buffer of 4 + 256 bytes takes every admissible message |
| IpmiCommon.CalcChecksum2 | src/ipmi_common.c:27-47 | for data_len above 256 returns 0xFD without reading data; otherwise returns the checksum of rq_addr, rq_seq_lun, cmd, the completion code for a response only, then data[0..data_len), in that order (staged in 4 + 256 bytes, where the source declares 258) |
| IpmiCommon.ValidateChecksum | src/ipmi_common.c:52-71 | exactly one of four outcomes: -3 iff data_len > 256; else -1 iff the header check fails; else -2 iff the body check fails; else 0; msg is not modified |
| IpmiCommon.BuildResponse | src/ipmi_common.c:73-96 | swaps the addresses, sets netfn_lun to (request byte + 1) mod 256, copies seq/LUN and cmd, stores the completion code and checksum1; returns 0 with payload, length and checksum2 set and the response validating, or returns -1 with data_len 0 and the payload and checksum2 untouched |
| IpmiCommon.HeaderOkIff | include/ipmi_common.h:34-39 | checksum1 passes the header check iff it equals 0 - (rs_addr + netfn_lun) mod 256 |
| IpmiCommon.BodyOkIff | include/ipmi_common.h:76-82 | checksum2 passes the body check iff it equals the checksum of the checksum2 input |
| IpmiCommon.Checksum2InputIgnoresHeader | include/ipmi_common.h:76-82 | checksum2's input depends on the body fields and the response bit only, not on rs_addr or checksum1 |
| IpmiCommon.CompletionCodeOnlyForResponses | src/ipmi_common.c:39-41 | the completion code is the fourth checksum2 byte for a response; for a request the payload follows cmd directly |
| IpmiCommon.LengthErrorIsAChecksum | src/ipmi_common.c:28-30 | the error value is 0xFD, which is also the checksum of the body {3} |
| IpmiCommonTop.CalcChecksum | ipmi_common.c:4-10 | reads data[0..len) without changing it; result plus the 8-bit running sum is 0 modulo 256; len 0 gives 0 |
| IpmiCommonTop.CopiesAgree | ipmi_common.c:4-10 | the top-level copy and the one in src/ipmi_common.c return the same byte on every input |
| IpmiCommonScenarios.GetDeviceIdRequest | test/test_ipmi_common.c:45-51 | builds the Get Device ID message of the unit tests, with every field named |

## Left out

- The `printf` in `build_ipmi_response` (src/ipmi_common.c:89) is console output. Only its return value and field effects are modelled.
- `calc_checksum(&resp->rs_addr, 2)` depends on struct layout. It is modelled as the checksum of the two-byte run `[rs_addr, netfn_lun]` (`Msg.HeaderInput`). Struct padding is not modelled.
- A NULL payload pointer with length 0 is modelled as an empty array.
- A payload pointer into the middle of another message's buffer cannot be expressed with whole Dafny arrays. `MemCpy` admits only distinct buffers, or the same buffer at offset 0.
- IpmiNetFn.IsResponse: the macro yields the int 0 or 1. The model yields a boolean.
- IpmiNetFn.MakeNetFnLun: the packed value is written as `4 * netfn + lun % 4`. `MakeNetFnLunBitsAreSum` proves on 16-bit vectors that the macro's shift-and-OR equals this sum. The step from that 16-bit value to the integer is not proved, because it exceeds the solver budget.
- Integer promotion to C `int` in `validate_ipmi_checksum` is not modelled separately. Every intermediate value is below 2^32, and the conversion to uint32_t is modelled.
- include/ipmi_cmd.h is a constant catalogue with no logic and is not part of this model.
- include/ipmi_dispatch.h only declares the dispatcher, whose implementation is not part of this model.
- src/ipmi_common_internal.h only declares functions that are modelled from src/ipmi_common.c.
- The Unity harness of test/test_ipmi_common.c (`setUp`, `tearDown`, `main`) is not modelled. Its cases are replayed in `IpmiCommonScenarios`.

## Findings

| source | as written | input that shows it | evidently intended | confidence | as-written member | corrected member |
|---|---|---|---|---|---|---|
| src/ipmi_common.c:31-32 | `tmp` holds `sizeof(rq_addr) + sizeof(rq_seq_lun) + 256` = 258 bytes, but up to 3 + 1 + 256 = 260 are written into it | the boundary test of test/test_ipmi_common.c:106-124 (netfn_lun 0x06, which reads as a response, data_len 256) stages 260 bytes; a request with 256 payload bytes stages 259 | a buffer large enough for cmd and the completion code too, 4 + 256 bytes | high; not executed | IpmiCommon.TmpOverflowAsWritten | IpmiCommon.CalcChecksum2 |
