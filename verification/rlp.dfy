/** Canonical RLP (Recursive Length Prefix, Appendix B of the Ethereum Yellow
    Paper) as the codec uses it through `alloy_rlp`: the list/string header,
    byte strings, and unsigned scalars of at most 256 bits.

    Every decoder takes the remaining input and returns the decoded value
    together with the input left over, the way `alloy_rlp` advances a
    `&mut &[u8]` cursor. */
module Rlp {
  import opened Wrappers
  import opened Primitives
  import opened BigEndian

  /** The `alloy_rlp::Error` cases this codec can produce. */
  datatype Error =
    | InputTooShort
    | NonCanonicalSingleByte
    | NonCanonicalSize
    | LeadingZero
    | Overflow
    | UnexpectedList
    | UnexpectedString
    | UnexpectedLength
    | ListLengthMismatch(expected: nat, got: nat)
    | Custom(message: string)

  /** `alloy_rlp::Header`: whether the item is a list, and its payload size. */
  datatype Header = Header(list: bool, payloadLength: nat)

  const EMPTY_STRING_CODE: Byte := 0x80
  const EMPTY_LIST_CODE: Byte := 0xC0

  /** Payload sizes a header can declare: a length-of-length of at most eight
      bytes, i.e. anything that fits in a 64-bit `usize`. */
  predicate Framable(payloadLength: nat) {
    payloadLength < U64_LIMIT
  }

  /** A framable size takes at most eight big-endian bytes. */
  lemma SizeBytesFit(n: nat)
    requires Framable(n)
    ensures |ToBytes(n)| <= 8
  {
    Pow256Limits();
    ToBytesLength(n, 8);
  }

  /** Any size read from at most eight bytes is framable. */
  lemma SizeFromBytesFramable(b: seq<Byte>)
    requires |b| <= 8
    ensures Framable(FromBytes(b))
  {
    Pow256Limits();
    Pow256Mono(|b|, 8);
  }

  /** `Header::length`: bytes taken by the header of a payload of the given size. */
  function HeaderLength(payloadLength: nat): (len: nat)
    ensures 1 <= len
  {
    if payloadLength < 56 then 1 else 1 + |ToBytes(payloadLength)|
  }

  /** Bytes taken by a list item with a payload of the given size. */
  function ListLength(payloadLength: nat): (len: nat)
    ensures len > payloadLength
  {
    HeaderLength(payloadLength) + payloadLength
  }

  /** `Header::encode`. */
  function EncodeHeader(h: Header): (out: seq<Byte>)
    requires Framable(h.payloadLength)
    ensures |out| == HeaderLength(h.payloadLength)
    ensures 1 <= |out| <= 9
    ensures out[0] >= EMPTY_STRING_CODE
    ensures h.list <==> out[0] >= EMPTY_LIST_CODE
  {
    var code := if h.list then EMPTY_LIST_CODE else EMPTY_STRING_CODE;
    if h.payloadLength < 56 then
      [code + h.payloadLength]
    else
      var be := ToBytes(h.payloadLength);
      SizeBytesFit(h.payloadLength);
      [code + 55 + |be|] + be
  }

  /** `Header::decode`. A single byte below 0x80 is its own string item: it
      yields a one-byte string header and consumes nothing. The second
      component of the result is the number of header bytes consumed.

      The contract states canonicity: every accepted header is re-encoded to
      exactly the bytes consumed, and the declared payload never runs past the
      end of the input. */
  function DecodeHeader(s: seq<Byte>): (r: Result<(Header, nat), Error>)
    ensures |s| == 0 ==> r == Err(InputTooShort)
    ensures r.Ok? ==> r.value.1 + r.value.0.payloadLength <= |s|
    ensures r.Ok? ==> Framable(r.value.0.payloadLength)
    ensures r.Ok? ==> (r.value.1 == 0 <==> s[0] < EMPTY_STRING_CODE)
    ensures r.Ok? && r.value.1 == 0 ==> r.value.0 == Header(false, 1)
    ensures r.Ok? && r.value.1 > 0 ==> s[..r.value.1] == EncodeHeader(r.value.0)
    ensures r.Ok? && r.value.1 > 0 && !r.value.0.list && r.value.0.payloadLength == 1 ==>
              s[r.value.1] >= EMPTY_STRING_CODE
  {
    if |s| == 0 then Err(InputTooShort)
    else
      var b := s[0];
      if b < EMPTY_STRING_CODE then
        Ok((Header(false, 1), 0))
      else if b <= 0xB7 then
        var len := b - EMPTY_STRING_CODE;
        if len == 1 && |s| < 2 then Err(InputTooShort)
        else if len == 1 && s[1] < EMPTY_STRING_CODE then Err(NonCanonicalSingleByte)
        else if |s| - 1 < len then Err(InputTooShort)
        else Ok((Header(false, len), 1))
      else if b < EMPTY_LIST_CODE || b >= 0xF8 then
        DecodeLongHeader(s)
      else
        var len := b - EMPTY_LIST_CODE;
        if |s| - 1 < len then Err(InputTooShort)
        else Ok((Header(true, len), 1))
  }

  /** The long forms of `Header::decode` (first byte 0xB8..0xBF or
      0xF8..0xFF): the first byte gives the length of a big-endian payload
      length, which must have no leading zero and be at least 56. */
  function DecodeLongHeader(s: seq<Byte>): (r: Result<(Header, nat), Error>)
    requires |s| > 0 && (0xB8 <= s[0] < EMPTY_LIST_CODE || 0xF8 <= s[0])
    ensures r.Ok? ==> r.value.1 > 0 && r.value.1 + r.value.0.payloadLength <= |s|
    ensures r.Ok? ==> Framable(r.value.0.payloadLength) && r.value.0.payloadLength >= 56
    ensures r.Ok? ==> s[..r.value.1] == EncodeHeader(r.value.0)
  {
    var b := s[0];
    var list := b >= 0xF8;
    var lenOfLen := b - (if list then 0xF7 else 0xB7);
    if |s| - 1 < lenOfLen then Err(InputTooShort)
    else if s[1] == 0 then Err(LeadingZero)
    else
      var lenBytes := s[1..1 + lenOfLen];
      var len := FromBytes(lenBytes);
      if len < 56 then Err(NonCanonicalSize)
      else if |s| - 1 - lenOfLen < len then Err(InputTooShort)
      else
        SizeFromBytesFramable(lenBytes);
        ToFromBytes(lenBytes);
        assert s[..1 + lenOfLen] == [b] + lenBytes;
        Ok((Header(list, len), 1 + lenOfLen))
  }

  /** A header followed by at least its declared payload decodes back to
      itself; a one-byte string payload must not be a byte below 0x80, which
      canonical RLP writes without a header. */
  lemma HeaderRoundTrip(h: Header, rest: seq<Byte>)
    requires Framable(h.payloadLength)
    requires h.payloadLength <= |rest|
    requires !h.list && h.payloadLength == 1 ==> rest[0] >= EMPTY_STRING_CODE
    ensures DecodeHeader(EncodeHeader(h) + rest) == Ok((h, HeaderLength(h.payloadLength)))
  {
    var enc := EncodeHeader(h);
    var s := enc + rest;
    if h.payloadLength >= 56 {
      var be := ToBytes(h.payloadLength);
      SizeBytesFit(h.payloadLength);
      FromToBytes(h.payloadLength);
      assert s[1..1 + |be|] == be;
    } else if !h.list && h.payloadLength == 1 {
      assert s[1] == rest[0];
    }
  }

  /** Byte strings. */

  /** `Bytes::length`. */
  function StringLength(p: seq<Byte>): (len: nat)
    ensures len >= |p|
    ensures len == |p| <==> |p| == 1 && p[0] < EMPTY_STRING_CODE
  {
    if |p| == 1 && p[0] < EMPTY_STRING_CODE then 1 else ListLength(|p|)
  }

  /** `Bytes::encode`: a single byte below 0x80 stands for itself, anything
      else is a string header followed by the bytes. */
  function EncodeString(p: seq<Byte>): (out: seq<Byte>)
    requires Framable(|p|)
    ensures |out| == StringLength(p)
    ensures out[|out| - |p|..] == p
  {
    if |p| == 1 && p[0] < EMPTY_STRING_CODE then p
    else EncodeHeader(Header(false, |p|)) + p
  }

  /** A list header followed by an already encoded payload. */
  function EncodeList(payload: seq<Byte>): (out: seq<Byte>)
    requires Framable(|payload|)
    ensures |out| == ListLength(|payload|)
    ensures out[|out| - |payload|..] == payload
  {
    EncodeHeader(Header(true, |payload|)) + payload
  }

  /** Either framing, as selected by `isList`. */
  function EncodeItem(payload: seq<Byte>, isList: bool): seq<Byte>
    requires Framable(|payload|)
  {
    if isList then EncodeList(payload) else EncodeString(payload)
  }

  /** `Header::decode_bytes`: decode a header of the expected kind and split
      off its payload. Whatever it accepts is exactly the framing of the
      returned payload followed by the returned rest. */
  function DecodeBytes(s: seq<Byte>, isList: bool): (r: Result<(seq<Byte>, seq<Byte>), Error>)
    ensures r.Ok? ==> Framable(|r.value.0|) && s == EncodeItem(r.value.0, isList) + r.value.1
  {
    var d :- DecodeHeader(s);
    var h := d.0;
    var hl := d.1;
    if h.list != isList then
      Err(if isList then UnexpectedString else UnexpectedList)
    else
      var payload := s[hl..hl + h.payloadLength];
      var rest := s[hl + h.payloadLength..];
      HeaderFraming(s, h, hl);
      Ok((payload, rest))
  }

  /** The bytes a decoded header covers are the framing of its payload. */
  lemma HeaderFraming(s: seq<Byte>, h: Header, hl: nat)
    requires DecodeHeader(s) == Ok((h, hl))
    ensures Framable(h.payloadLength)
    ensures s == EncodeItem(s[hl..hl + h.payloadLength], h.list) + s[hl + h.payloadLength..]
  {
    var payload := s[hl..hl + h.payloadLength];
    var rest := s[hl + h.payloadLength..];
    if hl == 0 {
      assert s == payload + rest;
    } else {
      assert s == s[..hl] + payload + rest;
    }
  }

  /** Decoding a framed payload returns it and leaves what follows alone. */
  lemma DecodeBytesRoundTrip(payload: seq<Byte>, isList: bool, rest: seq<Byte>)
    requires Framable(|payload|)
    ensures DecodeBytes(EncodeItem(payload, isList) + rest, isList) == Ok((payload, rest))
  {
    if !isList && |payload| == 1 && payload[0] < EMPTY_STRING_CODE {
      SingleByteRoundTrip(payload, rest);
    } else {
      FramedRoundTrip(payload, isList, rest);
    }
  }

  lemma SingleByteRoundTrip(payload: seq<Byte>, rest: seq<Byte>)
    requires |payload| == 1 && payload[0] < EMPTY_STRING_CODE
    ensures DecodeBytes(payload + rest, false) == Ok((payload, rest))
  {
    var s := payload + rest;
    assert DecodeHeader(s) == Ok((Header(false, 1), 0));
    assert s[0..1] == payload;
  }

  lemma FramedRoundTrip(payload: seq<Byte>, isList: bool, rest: seq<Byte>)
    requires Framable(|payload|)
    requires !(!isList && |payload| == 1 && payload[0] < EMPTY_STRING_CODE)
    ensures EncodeItem(payload, isList) == EncodeHeader(Header(isList, |payload|)) + payload
    ensures DecodeBytes(EncodeItem(payload, isList) + rest, isList) == Ok((payload, rest))
  {
    var h := Header(isList, |payload|);
    var enc := EncodeHeader(h);
    var hl := |enc|;
    var s := enc + payload + rest;
    HeaderRoundTrip(h, payload + rest);
    assert s == enc + (payload + rest);
    assert DecodeHeader(s) == Ok((h, hl));
    assert s[hl..hl + |payload|] == payload;
    assert s[hl + |payload|..] == rest;
  }

  /** What a struct decoder has read once its fields used exactly the payload
      declared by a list header: a list item framing those fields. */
  lemma ListFraming(s: seq<Byte>, h: Header, hl: nat, fields: seq<Byte>, rest: seq<Byte>)
    requires DecodeHeader(s) == Ok((h, hl))
    requires h.list
    requires hl <= |s| && s[hl..] == fields + rest
    requires |fields| == h.payloadLength
    ensures Framable(|fields|)
    ensures s == EncodeList(fields) + rest
  {
    assert s == s[..hl] + s[hl..];
  }

  /** Unsigned scalars (`U256`). */

  lemma ScalarWidth(n: U256)
    ensures |ToBytes(n)| <= 32
  {
    Pow256Limits();
    ToBytesLength(n, 32);
  }

  /** `U256::length`. */
  function UintLength(n: U256): (len: nat)
    ensures 1 <= len <= 33
    ensures len == 1 <==> n < EMPTY_STRING_CODE
  {
    ScalarWidth(n);
    SingleByteScalar(n);
    StringLength(ToBytes(n))
  }

  /** `U256::encode`: the minimal big-endian bytes as a string item; zero is
      the empty string 0x80 and values below 0x80 are a single byte. */
  function EncodeUint(n: U256): (out: seq<Byte>)
    ensures |out| == UintLength(n)
    ensures n == 0 ==> out == [EMPTY_STRING_CODE]
    ensures 0 < n < EMPTY_STRING_CODE ==> out == [n]
  {
    ScalarWidth(n);
    SingleByteScalar(n);
    EncodeString(ToBytes(n))
  }

  /** A scalar from 1 to 255 is one big-endian byte. */
  lemma SingleByteScalar(n: nat)
    ensures 0 < n < 0x100 ==> ToBytes(n) == [n]
  {
    assert ToBytes(0) == [];
  }

  /** `U256::decode`: a string item of at most 32 bytes without a leading zero. */
  function DecodeUint(s: seq<Byte>): (r: Result<(U256, seq<Byte>), Error>)
    ensures r.Ok? ==> s == EncodeUint(r.value.0) + r.value.1
  {
    var d :- DecodeBytes(s, false);
    var p := d.0;
    if |p| > 0 && p[0] == 0 then Err(LeadingZero)
    else if |p| > 32 then Err(Overflow)
    else
      Pow256Limits();
      Pow256Mono(|p|, 32);
      ToFromBytes(p);
      Ok((FromBytes(p), d.1))
  }

  lemma UintRoundTrip(n: U256, rest: seq<Byte>)
    ensures DecodeUint(EncodeUint(n) + rest) == Ok((n, rest))
  {
    ScalarWidth(n);
    DecodeBytesRoundTrip(ToBytes(n), false, rest);
    FromToBytes(n);
  }

  /** Fixed-size byte arrays (`[u8; N]`, `Address`, `B256`): a string item
      whose payload has exactly `n` bytes. */
  function DecodeFixed(s: seq<Byte>, n: nat): (r: Result<(seq<Byte>, seq<Byte>), Error>)
    ensures r.Ok? ==> |r.value.0| == n && Framable(n) && s == EncodeString(r.value.0) + r.value.1
  {
    var d :- DecodeBytes(s, false);
    if |d.0| != n then Err(UnexpectedLength) else Ok(d)
  }

  lemma FixedRoundTrip(p: seq<Byte>, rest: seq<Byte>)
    requires Framable(|p|)
    ensures DecodeFixed(EncodeString(p) + rest, |p|) == Ok((p, rest))
  {
    DecodeBytesRoundTrip(p, false, rest);
  }
}
