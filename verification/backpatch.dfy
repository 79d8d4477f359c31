/** `build_snpm_response` at the level of its pointer: octets are stored one
    at a time into the 1024-octet send buffer, a one-octet placeholder is
    skipped for each of the four constructed lengths, and once the last
    octet is written `encode_length` fills the placeholders in, innermost
    first. */
module Backpatch {
  import opened Bytes
  import opened Ber
  import opened Snmp

  /** Filling in a one-octet placeholder once its content is written turns
      `tag, placeholder, content` into the element `Tlv(tag, content)` and
      leaves everything before and after it alone, provided the content is
      shorter than 0x80 octets. */
  lemma BackpatchShortLength(x: seq<uint8>, tag: uint8, stale: uint8, content: seq<uint8>, tail: seq<uint8>)
    requires |content| < 0x80
    ensures Overwrite(x + [tag, stale] + content + tail, |x| + 1, EncodeLength(|content|))
         == x + Tlv(tag, content) + tail
  {
    var s := x + [tag, stale] + content + tail;
    assert s[..|x| + 1] == x + [tag];
    assert s[|x| + 2..] == content + tail;
  }

  /** From 0x80 octets of content on, the same store puts `1 + k` length
      octets into the one-octet hole: the first `k` content octets are lost
      under the length octets, and the result is not the element. */
  lemma BackpatchLongLengthOverwritesContent(x: seq<uint8>, tag: uint8, stale: uint8,
                                             content: seq<uint8>, tail: seq<uint8>)
    requires 0x80 <= |content| < 0x8000_0000
    ensures var e := EncodeLength(|content|);
      var k := |e| - 1;
      var r := Overwrite(x + [tag, stale] + content + tail, |x| + 1, e);
      && 1 <= k <= 4
      && r[..|x| + 2] == x + [tag, e[0]]
      && r[|x| + 2..|x| + 2 + k] == e[1..]
      && r[|x| + 2 + k..] == content[k..] + tail
      && r != x + Tlv(tag, content) + tail
  {
    var e := EncodeLength(|content|);
    var k := |e| - 1;
    var s := x + [tag, stale] + content + tail;
    var r := Overwrite(s, |x| + 1, e);
    assert r == s[..|x| + 1] + e + s[|x| + 1 + |e|..];
    assert s[..|x| + 1] == x + [tag];
    assert s[|x| + 1 + |e|..] == content[k..] + tail;
    assert r[..|x| + 2] == x + [tag, e[0]];
    assert r[|x| + 2..|x| + 2 + k] == e[1..];
    assert |r| < |x + Tlv(tag, content) + tail|;
  }

  /** The buffer holds `w` in front of what `base` held past it: the octets
      stored so far, with the pointer at `|w|`. */
  ghost predicate Wrote(buf: seq<uint8>, base: seq<uint8>, w: seq<uint8>) {
    |w| <= |base| && buf == w + base[|w|..]
  }

  /** A placeholder: the pointer skips an octet, which keeps whatever the
      buffer held there. */
  lemma Reserve(buf: seq<uint8>, base: seq<uint8>, w: seq<uint8>)
    requires Wrote(buf, base, w) && |w| < |base|
    ensures Wrote(buf, base, w + [base[|w|]])
  {
    assert base[|w|..] == [base[|w|]] + base[|w| + 1..];
  }

  /** `*ptr++ = b`. */
  method Put(buf: seq<uint8>, ptr: nat, b: uint8, ghost base: seq<uint8>, ghost w: seq<uint8>)
    returns (buf': seq<uint8>, ptr': nat)
    requires Wrote(buf, base, w) && ptr == |w| < |base|
    ensures Wrote(buf', base, w + [b]) && ptr' == ptr + 1
  {
    buf', ptr' := buf[ptr := b], ptr + 1;
    assert buf' == (w + [b]) + base[ptr'..];
  }

  /** `memcpy(ptr, src, |src|)`: the octets of `src` stored from offset `ptr`
      on; the caller advances its pointer itself. */
  method Memcpy(buf: seq<uint8>, ptr: nat, src: seq<uint8>) returns (buf': seq<uint8>)
    requires ptr + |src| <= |buf|
    ensures buf' == Overwrite(buf, ptr, src)
  {
    buf' := buf;
    var i := 0;
    while i < |src|
      invariant 0 <= i <= |src|
      invariant buf' == Overwrite(buf, ptr, src[..i])
    {
      OverwriteExtend(buf, ptr, src[..i], src[i]);
      assert src[..i] + [src[i]] == src[..i + 1];
      buf' := buf'[ptr + i := src[i]];
      i := i + 1;
    }
    assert src[..i] == src;
  }

  /** A field whose length octet is a cast `strlen` or `sizeof`: `*ptr++ =
      tag; *ptr++ = (unsigned char)n; memcpy(ptr, content, n); ptr += n`. */
  method WriteCastTlv(buf: seq<uint8>, ptr: nat, tag: uint8, content: seq<uint8>,
                      ghost base: seq<uint8>, ghost w: seq<uint8>)
    returns (buf': seq<uint8>, ptr': nat)
    requires Wrote(buf, base, w) && ptr == |w| && ptr + 2 + |content| <= |base|
    ensures Wrote(buf', base, w + CastTlv(tag, content)) && ptr' == ptr + 2 + |content|
  {
    buf', ptr' := Put(buf, ptr, tag, base, w);
    buf', ptr' := Put(buf', ptr', |content| % 256, base, w + [tag]);
    ghost var v := w + [tag] + [|content| % 256];
    buf' := Memcpy(buf', ptr', content);
    ptr' := ptr' + |content|;
    assert buf' == (v + content) + base[ptr'..];
    assert v + content == w + CastTlv(tag, content);
  }

  /** An INTEGER 0 in one content octet, `*ptr++ = ASN1_INTEGER; *ptr++ =
      0x01; *ptr++ = 0x00`: error-status noError(0) and error-index 0. */
  method WriteZero(buf: seq<uint8>, ptr: nat, ghost base: seq<uint8>, ghost w: seq<uint8>)
    returns (buf': seq<uint8>, ptr': nat)
    requires Wrote(buf, base, w) && ptr == |w| && ptr + 3 <= |base|
    ensures Wrote(buf', base, w + [Integer, 0x01, 0x00]) && ptr' == ptr + 3
  {
    buf', ptr' := Put(buf, ptr, Integer, base, w);
    buf', ptr' := Put(buf', ptr', 0x01, base, w + [Integer]);
    buf', ptr' := Put(buf', ptr', 0x00, base, w + [Integer] + [0x01]);
    assert w + [Integer] + [0x01] + [0x00] == w + [Integer, 0x01, 0x00];
  }

  /** Message header, version and community, from the start of the buffer:
      the SEQUENCE identifier, a skipped length octet, version-1 as `02 01
      00` and the community string under the octet its `strlen` is cast to. */
  method WriteMessageHead(buf: seq<uint8>, community: seq<uint8>) returns (buf': seq<uint8>, ptr: nat, lenPtr: nat)
    requires 7 + |community| <= |buf|
    ensures lenPtr == 1 && ptr == 7 + |community|
    ensures Wrote(buf', buf, [Sequence, buf[1]] + ([Integer, 0x01, Version1] + CastTlv(OctetString, community)))
  {
    buf', ptr := buf, 0;
    assert Wrote(buf', buf, []);
    buf', ptr := Put(buf', ptr, Sequence, buf, []);
    lenPtr := ptr;
    Reserve(buf', buf, [Sequence]);
    ptr := ptr + 1;
    ghost var w := [Sequence, buf[1]];
    assert [Sequence] + [buf[1]] == w;
    // version: INTEGER version-1(0)
    buf', ptr := Put(buf', ptr, Integer, buf, w);
    buf', ptr := Put(buf', ptr, 0x01, buf, w + [Integer]);
    buf', ptr := Put(buf', ptr, Version1, buf, w + [Integer] + [0x01]);
    ghost var v := w + [Integer] + [0x01] + [Version1];
    // community: OCTET STRING
    buf', ptr := WriteCastTlv(buf', ptr, OctetString, community, buf, v);
    assert v + CastTlv(OctetString, community) == w + ([Integer, 0x01, Version1] + CastTlv(OctetString, community));
  }

  /** Message header, version, community and the PDU header: the GetResponse
      identifier and a skipped length octet. */
  method WriteHeads(buf: seq<uint8>, community: seq<uint8>)
    returns (buf': seq<uint8>, ptr: nat, lenPtr: nat, pduLenPtr: nat)
    requires 9 + |community| <= |buf|
    ensures lenPtr == 1 && pduLenPtr == 8 + |community| && ptr == pduLenPtr + 1
    ensures Wrote(buf', buf, [Sequence, buf[1]] + ([Integer, 0x01, Version1] + CastTlv(OctetString, community))
                             + [GetResponseTag, buf[pduLenPtr]])
  {
    buf', ptr, lenPtr := WriteMessageHead(buf, community);
    ghost var w := [Sequence, buf[1]] + ([Integer, 0x01, Version1] + CastTlv(OctetString, community));
    buf', ptr := Put(buf', ptr, GetResponseTag, buf, w);
    pduLenPtr := ptr;
    Reserve(buf', buf, w + [GetResponseTag]);
    ptr := ptr + 1;
    assert w + [GetResponseTag] + [buf[pduLenPtr]] == w + [GetResponseTag, buf[pduLenPtr]];
  }

  /** The request-id: an INTEGER identifier, then the length octet and the
      value copied from the request when the request's length octet is 2 or
      4, nothing more otherwise. */
  method WriteRequestId(buf: seq<uint8>, ptr: nat, request: seq<uint8>, ghost base: seq<uint8>, ghost w: seq<uint8>)
    returns (buf': seq<uint8>, ptr': nat)
    requires ReadsInBounds(request)
    requires Wrote(buf, base, w) && ptr == |w| && ptr + 6 <= |base|
    ensures Wrote(buf', base, w + RequestIdField(request)) && ptr' == ptr + |RequestIdField(request)|
  {
    buf', ptr' := Put(buf, ptr, Integer, base, w);
    ghost var v := w + [Integer];
    if request[16] == 0x02 {
      buf', ptr' := Put(buf', ptr', 0x02, base, v);
      v := v + [0x02];
      buf', ptr' := Put(buf', ptr', request[17], base, v);
      v := v + [request[17]];
      buf', ptr' := Put(buf', ptr', request[18], base, v);
      v := v + [request[18]];
    }
    if request[16] == 0x04 {
      buf', ptr' := Put(buf', ptr', 0x04, base, v);
      v := v + [0x04];
      buf', ptr' := Put(buf', ptr', request[17], base, v);
      v := v + [request[17]];
      buf', ptr' := Put(buf', ptr', request[18], base, v);
      v := v + [request[18]];
      buf', ptr' := Put(buf', ptr', request[19], base, v);
      v := v + [request[19]];
      buf', ptr' := Put(buf', ptr', request[20], base, v);
      v := v + [request[20]];
    }
    assert v == w + RequestIdField(request);
  }

  /** The request-id echoed for every width from one to four octets: the
      INTEGER identifier, the request's length octet, then that many octets
      copied from offset 17 on. */
  method WriteRequestIdCorrected(buf: seq<uint8>, ptr: nat, request: seq<uint8>,
                                 ghost base: seq<uint8>, ghost w: seq<uint8>)
    returns (buf': seq<uint8>, ptr': nat)
    requires |request| > 16 && EchoableWidth(request) && |request| > 16 + request[16]
    requires Wrote(buf, base, w) && ptr == |w| && ptr + 6 <= |base|
    ensures Wrote(buf', base, w + RequestIdFieldCorrected(request)) && ptr' == ptr + 2 + request[16]
  {
    var width := request[16];
    buf', ptr' := Put(buf, ptr, Integer, base, w);
    buf', ptr' := Put(buf', ptr', width, base, w + [Integer]);
    ghost var v := w + [Integer] + [width];
    var i := 0;
    while i < width
      invariant 0 <= i <= width
      invariant ptr' == |v| + i
      invariant Wrote(buf', base, v + request[17..17 + i])
    {
      buf', ptr' := Put(buf', ptr', request[17 + i], base, v + request[17..17 + i]);
      assert v + request[17..17 + i] + [request[17 + i]] == v + request[17..17 + i + 1];
      i := i + 1;
    }
    assert v + request[17..17 + width] == w + RequestIdFieldCorrected(request);
  }

  /** The variable-bindings: the SEQUENCE identifier of the list and of its
      one VarBind, each followed by a skipped length octet, then the name as
      an OBJECT IDENTIFIER and the value as an OCTET STRING. */
  method WriteVarBind(buf: seq<uint8>, ptr: nat, name: seq<uint8>, value: seq<uint8>,
                      ghost base: seq<uint8>, ghost w: seq<uint8>)
    returns (buf': seq<uint8>, ptr': nat, varLenPtr: nat, itemLenPtr: nat)
    requires Wrote(buf, base, w) && ptr == |w| && ptr + 8 + |name| + |value| <= |base|
    ensures varLenPtr == ptr + 1 && itemLenPtr == ptr + 3 && ptr' == ptr + 8 + |name| + |value|
    ensures Wrote(buf', base, w + [Sequence, base[ptr + 1]] + [Sequence, base[ptr + 3]]
                              + (CastTlv(ObjectId, name) + CastTlv(OctetString, value)))
  {
    buf', ptr' := Put(buf, ptr, Sequence, base, w);
    varLenPtr := ptr';
    Reserve(buf', base, w + [Sequence]);
    ptr' := ptr' + 1;
    ghost var v := w + [Sequence, base[varLenPtr]];
    assert w + [Sequence] + [base[varLenPtr]] == v;

    buf', ptr' := Put(buf', ptr', Sequence, base, v);
    itemLenPtr := ptr';
    Reserve(buf', base, v + [Sequence]);
    ptr' := ptr' + 1;
    ghost var u := v + [Sequence, base[itemLenPtr]];
    assert v + [Sequence] + [base[itemLenPtr]] == u;

    // name: OBJECT IDENTIFIER
    buf', ptr' := WriteCastTlv(buf', ptr', ObjectId, name, base, u);
    // value: OCTET STRING
    buf', ptr' := WriteCastTlv(buf', ptr', OctetString, value, base, u + CastTlv(ObjectId, name));
    assert u + CastTlv(ObjectId, name) + CastTlv(OctetString, value)
        == u + (CastTlv(ObjectId, name) + CastTlv(OctetString, value));
  }

  /** Everything after the request-id: error-status and error-index, then
      the variable-bindings with their two length octets skipped. */
  method WriteTrailer(buf: seq<uint8>, ptr: nat, name: seq<uint8>, value: seq<uint8>,
                      ghost base: seq<uint8>, ghost w: seq<uint8>)
    returns (buf': seq<uint8>, ptr': nat, varLenPtr: nat, itemLenPtr: nat)
    requires Wrote(buf, base, w) && ptr == |w| && ptr + 14 + |name| + |value| <= |base|
    ensures varLenPtr == ptr + 7 && itemLenPtr == ptr + 9 && ptr' == ptr + 14 + |name| + |value|
    ensures Wrote(buf', base, w + [Integer, 0x01, 0x00] + [Integer, 0x01, 0x00]
                              + [Sequence, base[varLenPtr]] + [Sequence, base[itemLenPtr]]
                              + (CastTlv(ObjectId, name) + CastTlv(OctetString, value)))
  {
    buf', ptr' := WriteZero(buf, ptr, base, w);
    buf', ptr' := WriteZero(buf', ptr', base, w + [Integer, 0x01, 0x00]);
    buf', ptr', varLenPtr, itemLenPtr := WriteVarBind(buf', ptr', name, value, base,
                                                      w + [Integer, 0x01, 0x00] + [Integer, 0x01, 0x00]);
  }

  /** One backpatch, `len = ptr - len_ptr - 1; encode_length(&len_ptr, len)`:
      the octet at `lenPtr` was skipped after `tag` and everything up to `ptr`
      is its content, so filling it in completes the element. The pointer
      `encode_length` advances is a copy and is dropped. */
  method PatchLength(buf: seq<uint8>, ptr: nat, lenPtr: nat, ghost x: seq<uint8>, ghost tag: uint8,
                     ghost stale: uint8, ghost content: seq<uint8>, ghost tail: seq<uint8>)
    returns (buf': seq<uint8>)
    requires buf == x + [tag, stale] + content + tail
    requires lenPtr == |x| + 1 && ptr == lenPtr + 1 + |content|
    requires |content| < 0x80
    ensures buf' == x + Tlv(tag, content) + tail
  {
    var len := ptr - lenPtr - 1;
    var next;
    buf', next := EncodeLengthAt(buf, lenPtr, len);
    BackpatchShortLength(x, tag, stale, content, tail);
  }

  /** The two inner backpatches, the VarBind and then the VarBindList: the
      list's length counts the VarBind with its length octet filled in. */
  method PatchBindings(buf: seq<uint8>, ptr: nat, varLenPtr: nat, itemLenPtr: nat, ghost x: seq<uint8>,
                       ghost listStale: uint8, ghost itemStale: uint8, ghost item: seq<uint8>, ghost tail: seq<uint8>)
    returns (buf': seq<uint8>)
    requires |item| < 0x80 - 2
    requires buf == x + [Sequence, listStale] + [Sequence, itemStale] + item + tail
    requires varLenPtr == |x| + 1 && itemLenPtr == |x| + 3 && ptr == itemLenPtr + 1 + |item|
    ensures buf' == x + Tlv(Sequence, Tlv(Sequence, item)) + tail
  {
    assert buf == (x + [Sequence, listStale]) + [Sequence, itemStale] + item + tail;
    buf' := PatchLength(buf, ptr, itemLenPtr, x + [Sequence, listStale], Sequence, itemStale, item, tail);
    ShortTlv(Sequence, item);
    buf' := PatchLength(buf', ptr, varLenPtr, x, Sequence, listStale, Tlv(Sequence, item), tail);
  }

  /** The two outer backpatches, the PDU and then the message, around PDU
      content `body` whose lengths are already in place. */
  method PatchMessage(buf: seq<uint8>, ptr: nat, lenPtr: nat, pduLenPtr: nat, ghost version: seq<uint8>,
                      ghost body: seq<uint8>, ghost msgStale: uint8, ghost pduStale: uint8, ghost tail: seq<uint8>)
    returns (buf': seq<uint8>)
    requires |version| + |body| < 0x80 - 2
    requires buf == [Sequence, msgStale] + version + [GetResponseTag, pduStale] + body + tail
    requires lenPtr == 1 && pduLenPtr == 3 + |version| && ptr == pduLenPtr + 1 + |body|
    ensures buf' == Tlv(Sequence, version + Tlv(GetResponseTag, body)) + tail
  {
    ghost var head := [Sequence, msgStale];
    buf' := PatchLength(buf, ptr, pduLenPtr, head + version, GetResponseTag, pduStale, body, tail);
    ghost var pdu := Tlv(GetResponseTag, body);
    ShortTlv(GetResponseTag, body);
    assert head + version + pdu + tail == [] + [Sequence, msgStale] + (version + pdu) + tail;
    buf' := PatchLength(buf', ptr, lenPtr, [], Sequence, msgStale, version + pdu, tail);
    assert [] + Tlv(Sequence, version + pdu) + tail == Tlv(Sequence, version + pdu) + tail;
  }

  /** The four backpatches of `build_snpm_response`, innermost first: the
      VarBind, the VarBindList, the PDU, the message. Each length is the
      distance from its octet to the end of what was written. */
  method PatchLengths(buf: seq<uint8>, ptr: nat, lenPtr: nat, pduLenPtr: nat, varLenPtr: nat, itemLenPtr: nat,
                      ghost version: seq<uint8>, ghost id: seq<uint8>, ghost item: seq<uint8>,
                      ghost stale: seq<uint8>, ghost tail: seq<uint8>)
    returns (buf': seq<uint8>)
    requires |version| + |id| + |item| < 0x80 - 12 && |stale| == 4
    requires lenPtr == 1 && pduLenPtr == 3 + |version|
    requires varLenPtr == pduLenPtr + 8 + |id| && itemLenPtr == varLenPtr + 2
    requires ptr == itemLenPtr + 1 + |item|
    requires buf == [Sequence, stale[0]] + version + [GetResponseTag, stale[1]] + id
                    + [Integer, 0x01, 0x00] + [Integer, 0x01, 0x00]
                    + [Sequence, stale[2]] + [Sequence, stale[3]] + item + tail
    ensures buf' == Tlv(Sequence, version + Tlv(GetResponseTag, PduFields(id) + Tlv(Sequence, Tlv(Sequence, item))))
                    + tail
  {
    ghost var pduHead := [Sequence, stale[0]] + version + [GetResponseTag, stale[1]];
    ghost var fields := PduFields(id);
    assert buf == pduHead + fields + [Sequence, stale[2]] + [Sequence, stale[3]] + item + tail;
    buf' := PatchBindings(buf, ptr, varLenPtr, itemLenPtr, pduHead + fields, stale[2], stale[3], item, tail);
    ghost var list := Tlv(Sequence, Tlv(Sequence, item));
    ShortTlv(Sequence, item);
    ShortTlv(Sequence, Tlv(Sequence, item));
    assert pduHead + fields + list + tail == [Sequence, stale[0]] + version + [GetResponseTag, stale[1]]
                                           + (fields + list) + tail;
    buf' := PatchMessage(buf', ptr, lenPtr, pduLenPtr, version, fields + list, stale[0], stale[1], tail);
  }

  /** Everything after the request-id, backpatching included: once the
      headers and a request-id element `id` are in place, the rest of the
      stores and the four backpatches leave the whole reply around `id` at
      the front of the buffer, with the pointer just past it. */
  method FinishReply(buf: seq<uint8>, ptr: nat, lenPtr: nat, pduLenPtr: nat,
                     ghost id: seq<uint8>, ghost response: seq<uint8>)
    returns (buf': seq<uint8>, ptr': nat)
    requires |response| == SendBufferSize && |id| <= 6
    requires lenPtr == 1 && pduLenPtr == 14 && ptr == pduLenPtr + 1 + |id|
    requires Wrote(buf, response, [Sequence, response[lenPtr]] + VersionAndCommunity
                                  + [GetResponseTag, response[pduLenPtr]] + id)
    ensures ptr' == |ResponseWith(id)| <= |buf'|
    ensures buf' == ResponseWith(id) + response[ptr'..]
  {
    FixedFieldOctets();
    ghost var head := [Sequence, response[lenPtr]] + VersionAndCommunity + [GetResponseTag, response[pduLenPtr]];
    var varLenPtr, itemLenPtr;
    buf', ptr', varLenPtr, itemLenPtr := WriteTrailer(buf, ptr, SysDescrOid, SysDescrOctets, response, head + id);
    ghost var stale := [response[lenPtr], response[pduLenPtr], response[varLenPtr], response[itemLenPtr]];
    buf' := PatchLengths(buf', ptr', lenPtr, pduLenPtr, varLenPtr, itemLenPtr,
                         VersionAndCommunity, id, VarBindContent, stale, response[ptr'..]);
  }

  /** `build_snpm_response(request, req_len, response)`: the reply is written
      into the send buffer `response` and its length returned; `req_len` is
      never read. Whatever the buffer held before, its first `length` octets
      end up as the nested-element reply, and nothing past them is touched. */
  method BuildSnmpResponse(request: seq<uint8>, reqLen: int, response: seq<uint8>)
    returns (out: seq<uint8>, length: nat)
    requires ReadsInBounds(request)
    requires |response| == SendBufferSize
    ensures |out| == |response|
    ensures 0 < length == |BuildResponse(request)| <= |out|
    ensures out[..length] == BuildResponse(request)
    ensures out[length..] == response[length..]
  {
    var ptr, lenPtr, pduLenPtr;
    out, ptr, lenPtr, pduLenPtr := WriteHeads(response, CommunityOctets);
    ghost var head := [Sequence, response[lenPtr]] + VersionAndCommunity + [GetResponseTag, response[pduLenPtr]];
    out, ptr := WriteRequestId(out, ptr, request, response, head);
    out, length := FinishReply(out, ptr, lenPtr, pduLenPtr, RequestIdField(request), response);
  }

  /** The builder with the request-id echo corrected: a request whose
      request-id is one to four octets wide gets the intended GetResponse
      echoing it, any other request is dropped (length 0, buffer untouched). */
  method BuildSnmpResponseCorrected(request: seq<uint8>, response: seq<uint8>)
    returns (out: seq<uint8>, length: nat)
    requires |request| > 16
    requires EchoableWidth(request) ==> |request| > 16 + request[16]
    requires |response| == SendBufferSize
    ensures |out| == |response|
    ensures BuildResponseCorrected(request).None? ==> length == 0 && out == response
    ensures BuildResponseCorrected(request).Some? ==>
              && length == |BuildResponseCorrected(request).value| <= |out|
              && out[..length] == BuildResponseCorrected(request).value
              && out[length..] == response[length..]
  {
    if !(1 <= request[16] <= 4) {
      return response, 0;
    }
    var ptr, lenPtr, pduLenPtr;
    out, ptr, lenPtr, pduLenPtr := WriteHeads(response, CommunityOctets);
    ghost var head := [Sequence, response[lenPtr]] + VersionAndCommunity + [GetResponseTag, response[pduLenPtr]];
    out, ptr := WriteRequestIdCorrected(out, ptr, request, response, head);
    out, length := FinishReply(out, ptr, lenPtr, pduLenPtr, RequestIdFieldCorrected(request), response);
  }
}
