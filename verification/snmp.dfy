/** The reply the agent sends: the SNMPv1 GetResponse-PDU of RFC 1157 section
    4.1.4 that `build_snpm_response` writes, with the request-id copied from
    fixed offsets of the request and every other field constant. The nested
    lengths are given as `Tlv` elements, the form the backpatched placeholders
    end up in; module `Backpatch` proves the pointer-level construction equal
    to it. */
module Snmp {
  import opened Bytes
  import opened Ber

  /** Size of the buffer the reply is written into. */
  const SendBufferSize: nat := 1024

  const Version1: uint8 := 0
  const GetRequestTag: uint8 := ContextSpecific + Constructed + 0
  const GetResponseTag: uint8 := ContextSpecific + Constructed + 2

  const DefaultCommunity: string := "public"
  /** OID 1.3.6.1.2.1.1.5.0 in its BER content octets. */
  const SysDescrOid: seq<uint8> := [0x2B, 0x06, 0x01, 0x02, 0x01, 0x01, 0x05, 0x00]
  const SysDescr: string := "Simple SNMP Agent v1.0"

  /** The octets of a string of 7-bit characters, as a C string literal holds
      them (without the terminating NUL). */
  function Ascii(s: string): (r: seq<uint8>)
    requires forall i | 0 <= i < |s| :: s[i] < 128 as char
    ensures |r| == |s|
  {
    seq(|s|, i requires 0 <= i < |s| => s[i] as int)
  }

  /** The community and the description as the octets the agent sends. */
  const CommunityOctets: seq<uint8> := Ascii(DefaultCommunity)
  const SysDescrOctets: seq<uint8> := Ascii(SysDescr)

  /** One variable binding: an OBJECT IDENTIFIER and an OCTET STRING value,
      both as their content octets. */
  datatype VarBind = VarBind(name: seq<uint8>, value: seq<uint8>)

  /** A PDU; the INTEGER fields are kept as their content octets so that a
      request-id is echoed exactly as it arrived. */
  datatype Pdu = Pdu(tag: uint8, requestId: seq<uint8>, errorStatus: seq<uint8>,
                     errorIndex: seq<uint8>, varBinds: seq<VarBind>)

  datatype Message = Message(version: seq<uint8>, community: seq<uint8>, pdu: Pdu)

  /** Bound on every field and on the number of bindings, so that every nested
      length fits a C `int`. */
  const MaxField: nat := 0xFF

  predicate VarBindEncodable(vb: VarBind) {
    |vb.name| <= MaxField && |vb.value| <= MaxField
  }

  predicate Encodable(m: Message) {
    && |m.version| <= MaxField
    && |m.community| <= MaxField
    && |m.pdu.requestId| <= MaxField
    && |m.pdu.errorStatus| <= MaxField
    && |m.pdu.errorIndex| <= MaxField
    && |m.pdu.varBinds| <= MaxField
    && forall i | 0 <= i < |m.pdu.varBinds| :: VarBindEncodable(m.pdu.varBinds[i])
  }

  function EncodeVarBind(vb: VarBind): (r: seq<uint8>)
    requires VarBindEncodable(vb)
    ensures |r| <= 528
  {
    Tlv(Sequence, Tlv(ObjectId, vb.name) + Tlv(OctetString, vb.value))
  }

  /** The content of a VarBindList: the bindings' encodings in order. */
  function EncodeVarBinds(vbs: seq<VarBind>): (r: seq<uint8>)
    requires forall i | 0 <= i < |vbs| :: VarBindEncodable(vbs[i])
    ensures |r| <= 528 * |vbs|
  {
    if |vbs| == 0 then []
    else EncodeVarBind(vbs[0]) + EncodeVarBinds(vbs[1..])
  }

  /** A message as RFC 1157 section 4 lays it out: SEQUENCE { version,
      community, PDU }, the PDU being [tag] { request-id, error-status,
      error-index, SEQUENCE OF VarBind }. */
  function EncodeMessage(m: Message): (r: seq<uint8>)
    requires Encodable(m)
  {
    var p := m.pdu;
    var bindings := EncodeVarBinds(p.varBinds);
    var pdu := Tlv(p.tag, Tlv(Integer, p.requestId) + Tlv(Integer, p.errorStatus)
                          + Tlv(Integer, p.errorIndex) + Tlv(Sequence, bindings));
    Tlv(Sequence, Tlv(Integer, m.version) + Tlv(OctetString, m.community) + pdu)
  }

  /** The GetResponse the agent means to send for a request-id: version-1,
      community "public", noError, error-index 0, and the one binding of
      `SysDescrOid` to `SysDescr`. */
  function FixedReply(requestId: seq<uint8>): (m: Message)
    requires |requestId| <= MaxField
    ensures Encodable(m)
  {
    Message([Version1], CommunityOctets,
            Pdu(GetResponseTag, requestId, [0], [0], [VarBind(SysDescrOid, SysDescrOctets)]))
  }

  lemma ShortTlv(tag: uint8, content: seq<uint8>)
    requires |content| < 0x80
    ensures Tlv(tag, content) == [tag, |content|] + content
  {
  }

  /** A field whose length octet is stored as `(unsigned char)strlen(..)` or
      `sizeof(..)` rather than through `encode_length`. */
  function CastTlv(tag: uint8, content: seq<uint8>): (r: seq<uint8>)
    ensures |r| == |content| + 2
    ensures |content| < 0x80 ==> r == Tlv(tag, content)
  {
    [tag, |content| % 256] + content
  }

  /** The cast length octet is the short-form length exactly when the content
      is shorter than 0x80 octets; from 0x80 on it is no valid BER length. */
  lemma CastTlvIsTlv(tag: uint8, content: seq<uint8>)
    requires |content| < 0x8000_0000
    ensures CastTlv(tag, content) == Tlv(tag, content) <==> |content| < 0x80
  {
    if |content| >= 0x80 {
      assert |CastTlv(tag, content)| < |Tlv(tag, content)|;
    }
  }

  /** The request octets `build_snpm_response` reads: offset 16, and the two
      or four after it when offset 16 holds 2 or 4. The request length is
      never consulted, so the buffer itself must hold them. */
  predicate ReadsInBounds(request: seq<uint8>) {
    && |request| > 16
    && (request[16] == 2 ==> |request| > 18)
    && (request[16] == 4 ==> |request| > 20)
  }

  /** The request-id as `build_snpm_response` writes it: the INTEGER tag, then
      offset 16 of the request and the octets after it when offset 16 holds 2
      or 4, and nothing more in any other case. */
  function RequestIdField(request: seq<uint8>): (r: seq<uint8>)
    requires ReadsInBounds(request)
    ensures |r| >= 1 && r[0] == Integer
    ensures request[16] == 2 || request[16] == 4 ==> r == Tlv(Integer, request[17..17 + request[16]])
    ensures request[16] != 2 && request[16] != 4 ==> r == [Integer]
  {
    [Integer]
    + (if request[16] == 2 then [2, request[17], request[18]] else [])
    + (if request[16] == 4 then [4, request[17], request[18], request[19], request[20]] else [])
  }

  /** The message fields ahead of the PDU: version-1 and the community. */
  const VersionAndCommunity: seq<uint8> :=
    [Integer, 0x01, Version1] + CastTlv(OctetString, CommunityOctets)

  /** The PDU fields ahead of the variable-bindings: the request-id field,
      error-status noError(0) and error-index 0. */
  function PduFields(idField: seq<uint8>): (r: seq<uint8>) {
    idField + [Integer, 0x01, 0x00] + [Integer, 0x01, 0x00]
  }

  /** The content of the one VarBind: its name and its value. */
  const VarBindContent: seq<uint8> :=
    CastTlv(ObjectId, SysDescrOid) + CastTlv(OctetString, SysDescrOctets)

  /** The reply around a given request-id field. */
  function ResponseWith(idField: seq<uint8>): (r: seq<uint8>)
    requires |idField| <= 0x40
  {
    var varBind := Tlv(Sequence, VarBindContent);
    var pdu := Tlv(GetResponseTag, PduFields(idField) + Tlv(Sequence, varBind));
    Tlv(Sequence, VersionAndCommunity + pdu)
  }

  /** `build_snpm_response(request, req_len, response)`: the octets it leaves
      at the front of `response`; their count is its return value. */
  function BuildResponse(request: seq<uint8>): (r: seq<uint8>)
    requires ReadsInBounds(request)
    ensures |r| == 59 + |RequestIdField(request)| < SendBufferSize
  {
    ResponseLayout(RequestIdField(request));
    ResponseWith(RequestIdField(request))
  }

  /** Every octet of the reply around a request-id field of `f` octets: the
      fixed version and community, the GetResponse tag 0xA2, noError and index
      0, the binding, and at each of the four length octets the number of
      octets that follow it to the end. */
  lemma ResponseLayout(idField: seq<uint8>)
    requires |idField| <= 0x40
    ensures var r, f := ResponseWith(idField), |idField|;
      && |r| == 59 + f
      && r[0] == Sequence && r[1] == |r| - 2
      && r[2..5] == [Integer, 1, Version1]
      && r[5..13] == [OctetString, 6] + CommunityOctets
      && r[13] == GetResponseTag == Identifier(2, true, 2) == 0xA2 && r[14] == |r| - 15
      && r[15..15 + f] == idField
      && r[15 + f..21 + f] == [Integer, 1, 0, Integer, 1, 0]
      && r[21 + f] == Sequence && r[22 + f] == |r| - (23 + f) == 36
      && r[23 + f] == Sequence && r[24 + f] == |r| - (25 + f) == 34
      && r[25 + f..35 + f] == [ObjectId, 8] + SysDescrOid
      && r[35 + f..] == [OctetString, 22] + SysDescrOctets
  {
    FixedFieldOctets();
    NestedLayout([Integer, 0x01, Version1], CastTlv(OctetString, CommunityOctets), idField,
                 CastTlv(ObjectId, SysDescrOid), CastTlv(OctetString, SysDescrOctets));
  }

  /** The fields of the reply that do not depend on the request, with their
      cast length octets worked out. */
  lemma FixedFieldOctets()
    ensures CastTlv(OctetString, CommunityOctets) == [OctetString, 6] + CommunityOctets
    ensures CastTlv(ObjectId, SysDescrOid) == [ObjectId, 8] + SysDescrOid
    ensures CastTlv(OctetString, SysDescrOctets) == [OctetString, 22] + SysDescrOctets
    ensures GetResponseTag == Identifier(2, true, 2) == 0xA2
    ensures GetRequestTag == Identifier(2, true, 0) == 0xA0
  {
  }

  lemma NestedLayout(version: seq<uint8>, community: seq<uint8>, idField: seq<uint8>,
                     oid: seq<uint8>, descr: seq<uint8>)
    requires |version| == 3 && |community| == 8 && |oid| == 10 && |descr| == 24 && |idField| <= 0x40
    ensures var f := |idField|;
      var r := Tlv(Sequence, version + community
                   + Tlv(GetResponseTag, idField + [Integer, 0x01, 0x00] + [Integer, 0x01, 0x00]
                                         + Tlv(Sequence, Tlv(Sequence, oid + descr))));
      && |r| == 59 + f
      && r[0] == Sequence && r[1] == 57 + f
      && r[2..5] == version
      && r[5..13] == community
      && r[13] == GetResponseTag && r[14] == 44 + f
      && r[15..15 + f] == idField
      && r[15 + f..21 + f] == [Integer, 1, 0, Integer, 1, 0]
      && r[21 + f] == Sequence && r[22 + f] == 36 && r[23 + f] == Sequence && r[24 + f] == 34
      && r[25 + f..35 + f] == oid
      && r[35 + f..] == descr
  {
    var f := |idField|;
    var list2 := Tlv(Sequence, Tlv(Sequence, oid + descr));
    BindingsLayout(oid + descr);
    assert list2[4..14] == oid && list2[14..] == descr by {
      assert list2[4..] == oid + descr;
    }
    var pdu := Tlv(GetResponseTag, idField + [Integer, 0x01, 0x00] + [Integer, 0x01, 0x00] + list2);
    PduLayout(idField, list2);
    MessageLayout(version, community, pdu);
    var r := Tlv(Sequence, version + community + pdu);
    assert r[0] == r[..2][0] && r[1] == r[..2][1];
    assert r[13..] == pdu;
    assert r[13] == pdu[..2][0] && r[14] == pdu[..2][1];
    assert r[15..15 + f] == pdu[2..2 + f];
    assert r[15 + f..21 + f] == pdu[2 + f..8 + f];
    assert r[21 + f..] == pdu[8 + f..];
    assert r[21 + f..25 + f] == list2[..4];
    assert r[21 + f] == list2[..4][0] && r[22 + f] == list2[..4][1];
    assert r[23 + f] == list2[..4][2] && r[24 + f] == list2[..4][3];
    assert r[25 + f..35 + f] == list2[4..14];
    assert r[35 + f..] == list2[14..];
  }

  /** The VarBindList around one VarBind of 34 content octets. */
  lemma BindingsLayout(item: seq<uint8>)
    requires |item| == 34
    ensures var list2 := Tlv(Sequence, Tlv(Sequence, item));
      |list2| == 38 && list2[..4] == [Sequence, 36, Sequence, 34] && list2[4..] == item
  {
    ShortTlv(Sequence, item);
    ShortTlv(Sequence, Tlv(Sequence, item));
  }

  /** The PDU around a request-id field and a 38-octet VarBindList. */
  lemma PduLayout(idField: seq<uint8>, list2: seq<uint8>)
    requires |idField| <= 0x40 && |list2| == 38
    ensures var f := |idField|;
      var pdu := Tlv(GetResponseTag, idField + [Integer, 0x01, 0x00] + [Integer, 0x01, 0x00] + list2);
      && |pdu| == 46 + f
      && pdu[..2] == [GetResponseTag, 44 + f]
      && pdu[2..2 + f] == idField
      && pdu[2 + f..8 + f] == [Integer, 1, 0, Integer, 1, 0]
      && pdu[8 + f..] == list2
  {
    var body := idField + [Integer, 0x01, 0x00] + [Integer, 0x01, 0x00] + list2;
    ShortTlv(GetResponseTag, body);
    var pdu := Tlv(GetResponseTag, body);
    assert pdu[2..] == body;
  }

  /** The message around a three-octet version, an eight-octet community and
      a PDU. */
  lemma MessageLayout(version: seq<uint8>, community: seq<uint8>, pdu: seq<uint8>)
    requires |version| == 3 && |community| == 8 && |pdu| < 0x80 - 11
    ensures var r := Tlv(Sequence, version + community + pdu);
      && |r| == 13 + |pdu|
      && r[..2] == [Sequence, 11 + |pdu|]
      && r[2..5] == version && r[5..13] == community && r[13..] == pdu
  {
    ShortTlv(Sequence, version + community + pdu);
  }

  /** The request-id echo: `02 02` and request octets 17-18 when offset 16
      holds 2, `02 04` and octets 17-20 when it holds 4, a lone INTEGER tag
      otherwise; the reply is then 63, 65 or 60 octets long, well inside the
      send buffer. */
  lemma RequestIdEcho(request: seq<uint8>)
    requires ReadsInBounds(request)
    ensures var r := BuildResponse(request);
      && |r| < SendBufferSize
      && (request[16] == 2 ==> |r| == 63 && r[15..19] == [Integer, 2] + request[17..19])
      && (request[16] == 4 ==> |r| == 65 && r[15..21] == [Integer, 4] + request[17..21])
      && (request[16] != 2 && request[16] != 4 ==> |r| == 60 && r[15] == Integer && r[16] == Integer)
  {
    var f := RequestIdField(request);
    ResponseLayout(f);
    var r := BuildResponse(request);
    if request[16] == 2 {
      assert f == [Integer, 2] + request[17..19];
    } else if request[16] == 4 {
      assert f == [Integer, 4] + request[17..21];
    } else {
      assert r[15 + |f|..21 + |f|][0] == Integer;
    }
  }

  /** Only the request octets the echo reads affect the reply: two requests
      that agree on offset 16 and on the request-id octets it selects get the
      same reply, whatever else they hold. */
  lemma ResponseDependsOnlyOnEchoedOctets(a: seq<uint8>, b: seq<uint8>)
    requires ReadsInBounds(a) && ReadsInBounds(b)
    requires a[16] == b[16]
    requires a[16] == 2 ==> a[17..19] == b[17..19]
    requires a[16] == 4 ==> a[17..21] == b[17..21]
    ensures BuildResponse(a) == BuildResponse(b)
  {
    if a[16] == 2 {
      assert a[17] == a[17..19][0] && a[18] == a[17..19][1];
    } else if a[16] == 4 {
      assert a[17] == a[17..21][0] && a[18] == a[17..21][1];
      assert a[19] == a[17..21][2] && a[20] == a[17..21][3];
    }
    assert RequestIdField(a) == RequestIdField(b);
  }

  /** With a two- or four-octet request-id the reply is exactly the BER
      encoding of the intended GetResponse carrying the request's request-id
      octets. */
  lemma ResponseEncodesFixedReply(request: seq<uint8>)
    requires ReadsInBounds(request)
    requires request[16] == 2 || request[16] == 4
    ensures BuildResponse(request) == EncodeMessage(FixedReply(request[17..17 + request[16]]))
  {
    var id := request[17..17 + request[16]];
    assert RequestIdField(request) == Tlv(Integer, id);
    IntendedReplyOctets(id);
  }

  /** The reply built around a well-formed request-id element is the encoding of
      the intended GetResponse. */
  lemma IntendedReplyOctets(id: seq<uint8>)
    requires |id| <= 0x3E
    ensures ResponseWith(Tlv(Integer, id)) == EncodeMessage(FixedReply(id))
  {
    var vb := VarBind(SysDescrOid, SysDescrOctets);
    CastTlvIsTlv(ObjectId, SysDescrOid);
    CastTlvIsTlv(OctetString, SysDescrOctets);
    CastTlvIsTlv(OctetString, CommunityOctets);
    assert EncodeVarBinds([vb]) == EncodeVarBind(vb);
    assert Tlv(Integer, [0]) == [Integer, 0x01, 0x00];
  }

  /** The intended GetResponse takes at least 61 octets more than its
      request-id content. */
  lemma FixedReplyLength(id: seq<uint8>)
    requires |id| <= MaxField
    ensures |EncodeMessage(FixedReply(id))| >= 61 + |id|
  {
    var vb := VarBind(SysDescrOid, SysDescrOctets);
    assert EncodeVarBinds([vb]) == EncodeVarBind(vb);
    assert |EncodeVarBind(vb)| == 36;
    assert |Tlv(Integer, [0])| == 3;
    assert |Tlv(OctetString, CommunityOctets)| == 8;
  }

  /** When offset 16 of the request holds anything but 2 or 4 (a one- or
      three-octet request-id, say) the reply is no encoding of any GetResponse
      of this shape. */
  lemma UnechoedRequestIdIsMalformed(request: seq<uint8>)
    requires ReadsInBounds(request)
    requires request[16] != 2 && request[16] != 4
    ensures forall id | |id| <= MaxField :: BuildResponse(request) != EncodeMessage(FixedReply(id))
  {
    RequestIdEcho(request);
    forall id | |id| <= MaxField
      ensures BuildResponse(request) != EncodeMessage(FixedReply(id))
    {
      FixedReplyLength(id);
    }
  }

  /** In that case a reader of the PDU takes the error-status octets `01 00`
      for the request-id content, whatever the request's request-id was. */
  lemma UnechoedRequestIdIsMisread(request: seq<uint8>)
    requires ReadsInBounds(request)
    requires request[16] != 2 && request[16] != 4
    ensures var r := BuildResponse(request);
      && |r| > 15
      && ReadTlv(r[15..]).Some?
      && ReadTlv(r[15..]).value.0 == Integer
      && ReadTlv(r[15..]).value.1 == [0x01, 0x00]
  {
    var f := RequestIdField(request);
    assert f == [Integer];
    ResponseLayout(f);
    var r := ResponseWith(f);
    var tail := r[15..];
    var fields := r[16..22];
    assert fields == [Integer, 1, 0, Integer, 1, 0];
    assert r[15] == r[15..16][0] == Integer;
    assert tail[1] == fields[0] && tail[2] == fields[1] && tail[3] == fields[2];
    assert tail[0] == Integer && tail[1] == Integer && tail[2] == 1 && tail[3] == 0;
    assert DecodeLength(tail[1..]) == Some((2, 1));
  }

  /** Offset 16 holds a request-id width the corrected reply can echo. */
  predicate EchoableWidth(request: seq<uint8>)
    requires |request| > 16
  {
    1 <= request[16] <= 4
  }

  /** The request-id as it should be echoed: the INTEGER tag, the request's
      length octet and that many request octets, for every width from one to
      four octets. */
  function RequestIdFieldCorrected(request: seq<uint8>): (r: seq<uint8>)
    requires |request| > 16 && EchoableWidth(request) && |request| > 16 + request[16]
    ensures r == Tlv(Integer, request[17..17 + request[16]])
  {
    [Integer, request[16]] + request[17..17 + request[16]]
  }

  /** The reply with the echo corrected: the intended GetResponse for every
      request-id of one to four octets, and no reply (the request dropped) for
      any other width. */
  function BuildResponseCorrected(request: seq<uint8>): (r: Option<seq<uint8>>)
    requires |request| > 16
    requires EchoableWidth(request) ==> |request| > 16 + request[16]
    ensures r.Some? <==> EchoableWidth(request)
    ensures r.Some? ==> r.value == EncodeMessage(FixedReply(request[17..17 + request[16]]))
  {
    if EchoableWidth(request) then
      var f := RequestIdFieldCorrected(request);
      IntendedReplyOctets(request[17..17 + request[16]]);
      Some(ResponseWith(f))
    else None
  }

  /** The correction changes nothing where the written echo already works. */
  lemma CorrectedAgreesOnEchoedWidths(request: seq<uint8>)
    requires ReadsInBounds(request)
    requires request[16] == 2 || request[16] == 4
    ensures BuildResponseCorrected(request) == Some(BuildResponse(request))
  {
    ResponseEncodesFixedReply(request);
  }
}
