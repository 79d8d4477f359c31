/** The Basic Encoding Rules pieces the agent uses (ITU-T X.690): identifier
    octets, definite-form length octets as `encode_length` writes them, and
    tag-length-value elements. A reader for lengths and elements is defined
    here only to state what the writer's output means. */
module Ber {
  import opened Bytes

  datatype Option<+T> = None | Some(value: T)

  // Universal tags.
  const Sequence: uint8 := 0x30
  const Integer: uint8 := 0x02
  const OctetString: uint8 := 0x04
  const ObjectId: uint8 := 0x06

  /** Class bits `10` in bits 8-7 of an identifier octet. */
  const ContextSpecific: uint8 := 2 * 64
  /** The constructed flag, bit 6 of an identifier octet. */
  const Constructed: uint8 := 1 * 32

  /** Largest count of definite-form length octets that is allowed: a
      length-of-length of 127 (initial octet 0xFF) is reserved. */
  const MaxLengthOfLength: nat := 126

  /** Identifier octet of a tag with a low tag number (section 8.1.2 of ITU-T
      X.690): class in bits 8-7, constructed flag in bit 6, number in bits 5-1. */
  function Identifier(tagClass: nat, constructed: bool, number: nat): (t: uint8)
    requires tagClass < 4 && number < 31
    ensures t / 64 == tagClass
    ensures (t / 32) % 2 == (if constructed then 1 else 0)
    ensures t % 32 == number
  {
    tagClass * 64 + (if constructed then Constructed else 0) + number
  }

  /** Length octets as `encode_length` stores them for a C `int` length: the
      short form for anything below 0x80 (negative values truncated to an
      octet by the cast), else `0x80 | k` and `k` big-endian octets with `k`
      the smallest count that holds the length. */
  function EncodeLength(length: int): (r: seq<uint8>)
    requires IsInt32(length)
    ensures 0 <= length < 0x80 ==> r == [length]
    ensures length < 0 ==> r == [length % 256]
    ensures length >= 0x80 ==>
              && 2 <= |r| <= 5
              && r[0] == 0x80 + (|r| - 1)
              && Pow256(|r| - 2) <= length < Pow256(|r| - 1)
              && BEValue(r[1..]) == length
  {
    if length < 0x80 then [length % 256]
    else
      var k := OctetCount(length);
      OctetCountInt32(length);
      var r := [0x80 + k] + BigEndian(length, k);
      assert r[1..] == BigEndian(length, k);
      BEValueBigEndian(length, k);
      DivModUnique(length, Pow256(k), 0, length);
      r
  }

  /** Reads definite-form length octets at the front of `s` (section 8.1.3 of
      ITU-T X.690): the length and the number of octets it took. The
      indefinite form (0x80), the reserved 0xFF and a truncated long form
      give `None`. */
  function DecodeLength(s: seq<uint8>): (r: Option<(nat, nat)>)
    ensures r.Some? ==> 1 <= r.value.1 <= |s|
  {
    if |s| == 0 then None
    else if s[0] < 0x80 then Some((s[0], 1))
    else
      var k := s[0] - 0x80;
      if k == 0 || k > MaxLengthOfLength || |s| < 1 + k then None
      else Some((BEValue(s[1..1 + k]), 1 + k))
  }

  /** A tag-length-value element: the identifier, the length octets of the
      content's size, then the content. This is what a placeholder length
      octet filled in after the content holds once it is backpatched. */
  function Tlv(tag: uint8, content: seq<uint8>): (r: seq<uint8>)
    requires |content| < 0x8000_0000
    ensures |content| + 2 <= |r| <= |content| + 6
  {
    [tag] + EncodeLength(|content|) + content
  }

  /** Reads one element with a one-octet identifier at the front of `s`:
      the tag, the content and what follows the element. */
  function ReadTlv(s: seq<uint8>): (r: Option<(uint8, seq<uint8>, seq<uint8>)>)
    ensures r.Some? ==> |r.value.1| + |r.value.2| < |s|
  {
    if |s| == 0 then None
    else
      match DecodeLength(s[1..])
      case None => None
      case Some((n, c)) =>
        if 1 + c + n <= |s| then Some((s[0], s[1 + c..1 + c + n], s[1 + c + n..]))
        else None
  }

  /** Decoding what `encode_length` wrote recovers the length and consumes
      exactly the octets written, whatever follows them. */
  lemma LengthRoundTrip(length: int, rest: seq<uint8>)
    requires 0 <= length < 0x8000_0000
    ensures DecodeLength(EncodeLength(length) + rest) == Some((length, |EncodeLength(length)|))
  {
    var e := EncodeLength(length);
    var s := e + rest;
    if length >= 0x80 {
      assert s[1..|e|] == e[1..];
    }
  }

  /** No valid length octets for a length are shorter than `encode_length`'s. */
  lemma EncodeLengthIsShortest(s: seq<uint8>, length: nat, used: nat)
    requires DecodeLength(s) == Some((length, used)) && length < 0x8000_0000
    ensures |EncodeLength(length)| <= used
  {
    if s[0] >= 0x80 && length >= 0x80 {
      var k := s[0] - 0x80;
      var e := EncodeLength(length);
      OctetCountIsMinimal(length, k);
      OctetCountIsMinimal(length, |e| - 1);
      assert Pow256(|e| - 2) <= length;
      Pow256Monotone(k, |e| - 2);
    }
  }

  /** The octets `encode_length` writes are the only valid length octets of
      their size for that length: a reader that accepts `used` octets as
      `length`, with `used` the writer's size, saw the writer's octets. */
  lemma EncodeLengthIsCanonical(s: seq<uint8>, length: nat, used: nat)
    requires DecodeLength(s) == Some((length, used)) && length < 0x8000_0000
    requires used == |EncodeLength(length)|
    ensures s[..used] == EncodeLength(length)
  {
    var e := EncodeLength(length);
    if s[0] >= 0x80 {
      if length < 0x80 {
        assert false;
      }
      BEValueInjective(s[1..used], e[1..]);
      assert s[..used] == [s[0]] + s[1..used];
      assert e == [e[0]] + e[1..];
    }
  }

  /** Length octets for any length that fits the 1024-octet send buffer take
      at most three octets, and one octet exactly when the length is below
      0x80. */
  lemma LengthOctetsWithinSendBuffer(length: nat)
    requires length <= 1024
    ensures |EncodeLength(length)| <= 3
    ensures |EncodeLength(length)| == 1 <==> length < 0x80
  {
    if length >= 0x80 {
      var e := EncodeLength(length);
      Pow256Monotone(2, |e| - 2);
    }
  }

  /** Reading back an element recovers its tag and content and leaves what
      follows it. */
  lemma TlvRoundTrip(tag: uint8, content: seq<uint8>, rest: seq<uint8>)
    requires |content| < 0x8000_0000
    ensures ReadTlv(Tlv(tag, content) + rest) == Some((tag, content, rest))
  {
    var e := EncodeLength(|content|);
    var s := Tlv(tag, content) + rest;
    assert s[1..] == e + (content + rest);
    LengthRoundTrip(|content|, content + rest);
    assert s[1 + |e|..1 + |e| + |content|] == content;
    assert s[1 + |e| + |content|..] == rest;
  }

  /** The shift loop at the head of `encode_length`'s long form: the number of
      octets `n` occupies, so that `n < 256^bytes` and `n >= 256^(bytes-1)`. */
  method CountOctets(n: nat) returns (bytes: nat)
    ensures bytes == OctetCount(n)
  {
    bytes := 0;
    var temp := n;
    while temp > 0
      invariant bytes + OctetCount(temp) == OctetCount(n)
      decreases temp
    {
      temp := temp / 256;   // temp >>= 8
      bytes := bytes + 1;
    }
  }

  /** The store loop of `encode_length`'s long form: octets `k - 1` down to 0
      of `n`, each `(n >> (i * 8)) & 0xFF`, stored one `*ptr++` at a time from
      offset `p` on. */
  method StoreBigEndian(buf: seq<uint8>, p: nat, n: nat, k: nat) returns (out: seq<uint8>, next: nat)
    requires p + k <= |buf|
    ensures next == p + k
    ensures out == Overwrite(buf, p, BigEndian(n, k))
  {
    out, next := buf, p;
    ghost var written: seq<uint8> := [];
    var i: int := k - 1;
    while i >= 0
      invariant -1 <= i < k
      invariant |written| == k - 1 - i && next == p + |written|
      invariant written + BigEndian(n, i + 1) == BigEndian(n, k)
      invariant out == Overwrite(buf, p, written)
    {
      var octet := (n / Pow256(i)) % 256;
      assert BigEndian(n, i + 1) == [octet] + BigEndian(n, i);
      OverwriteExtend(buf, p, written, octet);
      out, next := out[next := octet], next + 1;
      written := written + [octet];
      i := i - 1;
    }
    assert written == BigEndian(n, k);
  }

  /** The long form unfolded: `0x80 | k`, then `k` big-endian octets. */
  lemma EncodeLengthLongForm(length: int)
    requires 0x80 <= length < 0x8000_0000
    ensures OctetCount(length) <= 4
    ensures EncodeLength(length) == [0x80 + OctetCount(length)] + BigEndian(length, OctetCount(length))
  {
    OctetCountInt32(length);
  }

  /** `encode_length(&ptr, length)` on a buffer: the length octets are stored
      from offset `p` on, one `*ptr++` at a time, and the pointer ends just
      past them. */
  method EncodeLengthAt(buf: seq<uint8>, p: nat, length: int) returns (out: seq<uint8>, next: nat)
    requires IsInt32(length)
    requires p + |EncodeLength(length)| <= |buf|
    ensures next == p + |EncodeLength(length)|
    ensures out == Overwrite(buf, p, EncodeLength(length))
  {
    if length < 0x80 {
      OverwriteExtend(buf, p, [], length % 256);
      out, next := buf[p := length % 256], p + 1;
    } else {
      EncodeLengthLongForm(length);
      out, next := StoreLongLength(buf, p, length);
    }
  }

  /** The long-form branch of `encode_length`: count the octets, store
      `0x80 | bytes`, then the octets themselves. */
  method StoreLongLength(buf: seq<uint8>, p: nat, length: nat) returns (out: seq<uint8>, next: nat)
    requires OctetCount(length) <= 4 && p + 1 + OctetCount(length) <= |buf|
    ensures next == p + 1 + OctetCount(length)
    ensures out == Overwrite(buf, p, [0x80 + OctetCount(length)] + BigEndian(length, OctetCount(length)))
  {
    var bytes := CountOctets(length);
    OverwriteExtend(buf, p, [], 0x80 + bytes);
    out, next := buf[p := 0x80 + bytes], p + 1;   // 0x80 | bytes
    out, next := StoreBigEndian(out, next, length, bytes);
    OverwriteAppend(buf, p, [0x80 + bytes], BigEndian(length, bytes));
  }
}
