# SNMPv1 GetResponse builder of `snmpd.cpp`, in Dafny

`snmpd.cpp` is a minimal SNMPv1 agent. Its core has two parts:

- `encode_length` writes the definite-form length octets of the Basic Encoding
  Rules (section 8.1.3 of ITU-T X.690).
- `build_snpm_response` writes one fixed GetResponse-PDU into a 1024-octet send
  buffer (section 4.1.4 of RFC 1157). The reply is version-1, community
  "public", noError and error-index 0, and one binding of the agent's OID to
  "Simple SNMP Agent v1.0". The request-id is copied from fixed offsets of the
  request.

The builder stores octets through a pointer. For each of the four constructed
elements (message, PDU, VarBindList, VarBind) it skips a one-octet
placeholder. Once the last octet is written, it fills the placeholders in with
`encode_length`, innermost first.

The project has four modules:

- `Bytes`: octets, powers of 256, big-endian octet strings, and `Overwrite`,
  which stores octets into a fixed-size buffer.
- `Ber`: identifier octets, `EncodeLength` (what `encode_length` writes) and
  the pointer-level `EncodeLengthAt`. It also defines `Tlv`, the
  tag-length-value element. `DecodeLength` and `ReadTlv` are BER readers
  defined only to state round trips; the agent itself has no reader.
- `Snmp`: the reply as a function of the request, with `BuildResponse` as
  nested `Tlv` elements. Three things are proved about it:
  - its octet-by-octet layout;
  - the request-id echo;
  - its agreement with `EncodeMessage`, an independent RFC 1157 encoder over
    the `Message`/`Pdu`/`VarBind` datatypes.
- `Backpatch`: the builder at the level of its pointer. Each `*ptr++`, each
  `memcpy` and each backpatch is one step, on a `seq` that stands for the send
  buffer. It proves that the in-place construction leaves exactly
  `BuildResponse(request)` at the front of the buffer. It also proves that
  nothing past the reply is touched, whatever the buffer held before.

The backpatch is stated once, as `BackpatchShortLength`. Below 0x80 octets of
content, filling in a placeholder turns `tag, stale, content` into
`Tlv(tag, content)`. `BackpatchLongLengthOverwritesContent` shows what would
happen from 0x80 on: the length takes more than the one octet reserved for it
and overwrites the first content octets. In this reply the longest content is
the message's, 57 + f octets around a request-id field of f octets. That is
at most 57 + 6 = 63 octets, so the short case always holds.

## Model

| member | source | states |
|---|---|---|
| Bytes.OctetCount | snmpd.cpp:49-51 | The number of `temp >>= 8` steps that bring `n` to zero is the octet count of `n`: `n < 256^k`, `n >= 256^(k-1)` when `k > 0`, and `k` is zero exactly when `n` is. |
| Bytes.OctetCountIsMinimal | snmpd.cpp:49-51 | No width smaller than that count holds `n`. |
| Bytes.BEValueBigEndian | snmpd.cpp:53-55 | Reading back the `k` octets `(n >> 8i) & 0xFF`, taken most significant first, gives `n mod 256^k`. |
| Bytes.BEValueInjective | snmpd.cpp:53-55 | Two big-endian strings of one width with one value are the same string. |
| Ber.Identifier | snmpd.cpp:24-37 | An identifier octet built from class, constructed flag and tag number carries the class in bits 8-7, the flag in bit 6 and the number in bits 5-1. |
| Ber.EncodeLength | snmpd.cpp:45-57 | A length below 0x80 is the one octet `length`. A negative `int` is truncated to `length mod 256`. From 0x80 on the first octet is `0x80 + k` with 1 <= k <= 4 and `256^(k-1) <= length < 256^k` (k minimal), and the `k` octets after it read back big-endian as `length`. |
| Ber.LengthRoundTrip | snmpd.cpp:45-57 | A definite-length reader recovers the length from what `encode_length` wrote and consumes exactly those octets, whatever follows. |
| Ber.EncodeLengthIsShortest | snmpd.cpp:45-57 | No valid length octets for a length are shorter than the ones written. |
| Ber.EncodeLengthIsCanonical | snmpd.cpp:45-57 | Valid length octets of the writer's size for a length are the writer's octets. |
| Ber.LengthOctetsWithinSendBuffer | snmpd.cpp:45-57 | For any length up to 1024 (the send buffer size) at most 3 octets are written, and exactly 1 when the length is below 0x80. |
| Bytes.BigEndian | snmpd.cpp:53-55 | The `k` octets stored by the loop, `(n >> 8i) & 0xFF` from `i = k - 1` down to 0; there are exactly `k` of them. |
| Ber.Tlv | snmpd.cpp:159-170 | The element a filled-in placeholder completes: the tag, then the length octets of the content's size, then the content. It is 2 to 6 octets longer than its content. |
| Ber.TlvRoundTrip | snmpd.cpp:159-170 | A backpatched element reads back as its tag and content and leaves what follows it. |
| Ber.CountOctets | snmpd.cpp:49-51 | The `temp >>= 8` loop ends with `bytes` equal to the octet count of the length. |
| Ber.StoreBigEndian | snmpd.cpp:53-55 | The store loop writes the `k` big-endian octets of `n` from the pointer on, advances the pointer by `k` and changes nothing else. |
| Ber.StoreLongLength | snmpd.cpp:48-56 | The long-form branch stores `0x80 + bytes` and then the octets, and the pointer ends just past them. |
| Ber.EncodeLengthAt | snmpd.cpp:45-57 | `encode_length(&ptr, length)` stores exactly `EncodeLength(length)` from the pointer on, advances the pointer by its size and leaves the rest of the buffer alone. |
| Snmp.CastTlv | snmpd.cpp:76-79 | A field whose length octet is a cast `strlen`/`sizeof` (also lines 148-157) is 2 octets longer than its content. For content shorter than 0x80 octets it is the BER element `Tlv(tag, content)`, so the cast octet is the correct short-form length. |
| Snmp.RequestIdField | snmpd.cpp:88-100 | The request-id field written: always the INTEGER tag. When offset 16 holds 2 or 4 it is the well-formed element with that many request octets from offset 17. For any other value it is the lone tag. |
| Snmp.BuildResponse | snmpd.cpp:58-173 | The octets `build_snpm_response` leaves in the send buffer: 59 octets plus the request-id field, always shorter than the 1024-octet send buffer. It is `ResponseWith(RequestIdField(request))`, the message nesting `VersionAndCommunity` (lines 66-79), `PduFields` (lines 88-120) and `VarBindContent` (lines 147-157). `ResponseLayout` states `ResponseWith` octet by octet. |
| Snmp.FixedFieldOctets | snmpd.cpp:24-42 | The constant fields with their cast lengths, worked out: `04 06 "public"`, `06 08` and the OID, `04 22` and the description. The PDU tags are GetRequest 0xA0 and GetResponse 0xA2, class context-specific, constructed, numbers 0 and 2. |
| Snmp.CastTlvIsTlv | snmpd.cpp:76-79 | A length octet written as `(unsigned char)strlen(..)` or `sizeof(..)` is the BER length exactly when the content is shorter than 0x80 octets. |
| Snmp.ResponseLayout | snmpd.cpp:58-172 | Octet by octet, the reply around a request-id field of `f` octets: `30 57+f`, `02 01 00`, `04 06 "public"`, then `A2 44+f` (GetResponse, class context-specific, constructed, number 2). Then the request-id field, `02 01 00` twice, `30 36 30 34`, `06 08` with the OID, and `04 22 "Simple SNMP Agent v1.0"`. Each length octet equals the number of octets after it up to the end; total length 59 + f. |
| Snmp.RequestIdEcho | snmpd.cpp:88-100 | If request offset 16 holds 2, the reply carries `02 02` and request octets 17-18 and is 63 octets. If it holds 4, it carries `02 04` and octets 17-20 and is 65 octets. Otherwise it carries a lone INTEGER tag and is 60 octets. All three fit the send buffer. |
| Snmp.ResponseDependsOnlyOnEchoedOctets | snmpd.cpp:88-100 | Two requests that agree on offset 16 and on the request-id octets it selects get the same reply; no other request octet and not `req_len` matters. |
| Snmp.ResponseEncodesFixedReply | snmpd.cpp:58-172 | For a 2- or 4-octet request-id the reply equals the RFC 1157 encoding of the GetResponse with that request-id, community "public", noError, index 0 and the one binding. |
| Snmp.IntendedReplyOctets | snmpd.cpp:63-157 | The reply built around a well-formed request-id element equals the independent encoder's output for the intended message. |
| Snmp.UnechoedRequestIdIsMalformed | snmpd.cpp:88-100 | For any other value at offset 16, the reply is not the encoding of any GetResponse of this shape. |
| Snmp.UnechoedRequestIdIsMisread | snmpd.cpp:88-113 | For those values, a reader of the PDU takes the INTEGER tag followed by error-status's octets as a request-id element with content `01 00`. |
| Snmp.RequestIdFieldCorrected | snmpd.cpp:88-100 | The corrected echo writes the request-id element as a `Tlv` of the request's own width and octets. |
| Snmp.BuildResponseCorrected | snmpd.cpp:88-100 | The corrected reply exists exactly for request-id widths 1 to 4, and then it is the encoding of the intended GetResponse echoing the request-id. |
| Snmp.CorrectedAgreesOnEchoedWidths | snmpd.cpp:88-100 | For widths 2 and 4 the corrected reply is the reply as written. |
| Backpatch.BackpatchShortLength | snmpd.cpp:159-170 | Below 0x80 octets of content, filling in a placeholder octet turns `tag, stale, content` into `tag ++ EncodeLength(|content|) ++ content` and leaves the octets around it alone. |
| Backpatch.BackpatchLongLengthOverwritesContent | snmpd.cpp:159-170 | From 0x80 octets of content on, the same fill-in writes `1 + k` octets into the one-octet hole. The first `k` content octets are lost, and the result is not the element. |
| Backpatch.Put | snmpd.cpp:63-63 | `*ptr++ = b` appends `b` to what was written and advances the pointer by one. |
| Backpatch.Memcpy | snmpd.cpp:78-78 | `memcpy` stores the source octets from the pointer on and changes nothing else. |
| Backpatch.WriteCastTlv | snmpd.cpp:76-79 | Tag, cast length octet, `memcpy` and pointer advance append the field with its cast length. |
| Backpatch.WriteZero | snmpd.cpp:111-113 | The three stores append `02 01 00`. |
| Backpatch.WriteMessageHead | snmpd.cpp:63-79 | The message header with a skipped length octet, the version and the community are appended at the start of the buffer. |
| Backpatch.WriteHeads | snmpd.cpp:63-85 | As above, followed by the GetResponse identifier and its skipped length octet at offset 14. |
| Backpatch.WriteRequestId | snmpd.cpp:88-100 | The conditional stores append exactly the request-id field that `RequestIdField` describes. |
| Backpatch.WriteRequestIdCorrected | snmpd.cpp:88-100 | The corrected echo loop appends the INTEGER tag, the request's width and that many request octets. |
| Backpatch.WriteVarBind | snmpd.cpp:140-157 | The two SEQUENCE identifiers with their skipped length octets, then the name and the value, are appended. |
| Backpatch.WriteTrailer | snmpd.cpp:111-157 | Error-status, error-index and the variable-bindings are appended after the request-id. |
| Backpatch.PatchLength | snmpd.cpp:160-161 | `len = ptr - len_ptr - 1; encode_length(&len_ptr, len)` completes the element whose placeholder `len_ptr` points at. |
| Backpatch.PatchBindings | snmpd.cpp:160-164 | The VarBind and then the VarBindList backpatches nest the binding in two SEQUENCE elements. |
| Backpatch.PatchMessage | snmpd.cpp:166-170 | The PDU and then the message backpatches complete the GetResponse and the message around it. |
| Backpatch.PatchLengths | snmpd.cpp:159-170 | The four backpatches, innermost first, turn the written octets into the nested elements. |
| Backpatch.FinishReply | snmpd.cpp:111-170 | After the request-id, the remaining stores and the backpatches leave the whole reply at the front of the buffer, with the pointer just past it. |
| Backpatch.BuildSnmpResponse | snmpd.cpp:58-173 | Whatever the send buffer held, its first `length` octets become `BuildResponse(request)` and the rest is untouched. The return value is the reply's length, and `req_len` is ignored. |
| Backpatch.BuildSnmpResponseCorrected | snmpd.cpp:88-100 | The corrected builder writes the intended reply for request-id widths 1 to 4. For any other width it writes nothing and returns 0. |

## Left out

- `main` (snmpd.cpp:174-251): Winsock start-up, the UDP socket, `recvfrom`/`sendto` and the request loop are I/O. The model starts from a request and a send buffer given as sequences.
- The request is never decoded. The code reads offsets 16-20 and nothing else, so there is no PDU parser, OID registry or dispatcher to model; `DecodeLength` and `ReadTlv` exist only to state round trips.
- Snmp.ReadsInBounds: the model's `request` stands for the whole 1024-octet receive buffer that `main` passes in (snmpd.cpp:223, 229, 237), not for the datagram alone. That buffer always meets `ReadsInBounds`. `req_len` is never checked, so after a datagram shorter than 21 octets the echo copies octets left in the buffer by an earlier, longer datagram. Before any datagram has reached those offsets they are indeterminate. The model takes the buffer's contents as given and does not track received lengths across requests.
- Snmp.EncodeMessage: the reference encoder is defined for fields and binding lists of at most 255 entries each (`MaxField`). That keeps every nested length inside a C `int`; the agent itself only ever encodes one fixed message.
- The comment in the source calls the OID sysDescr, but its octets `2B 06 01 02 01 01 05 00` are 1.3.6.1.2.1.1.5.0 (sysName.0). The model keeps the octets as written.

## Findings

| source | as written | input that shows it | evidently intended | confidence | as-written member | corrected member |
|---|---|---|---|---|---|---|
| snmpd.cpp:88-100 | The request-id is echoed only when request offset 16 holds 2 or 4. For any other width, only the INTEGER tag is written, with no length and no value, so error-status's `01 00` is read as the request-id. | A GetRequest whose request-id is one octet: offset 15-17 holds `02 01 07` | Echo a request-id of any width (1 to 4 octets) as tag, length and value | not executed | Snmp.UnechoedRequestIdIsMalformed | Snmp.BuildResponseCorrected |
