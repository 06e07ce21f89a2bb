/** The per-transaction record a span batch keeps for an EIP-1559
    transaction: the fields that are not shared across the batch, its RLP
    codec, and its reconstruction into a signed EIP-1559 envelope. */
module SpanBatchEip1559 {
  import opened Wrappers
  import opened Primitives
  import opened BigEndian
  import opened Rlp
  import opened Eip2930
  import opened Consensus
  import opened Seqs

  datatype SpanBatchEip1559TransactionData = SpanBatchEip1559TransactionData(
    value: U256,
    maxFeePerGas: U256,
    maxPriorityFeePerGas: U256,
    data: seq<Byte>,
    accessList: AccessList)

  /** Encoding. */

  /** Sum of the `length()` of the five fields: the payload of the list. */
  function PayloadLength(d: SpanBatchEip1559TransactionData): (len: nat)
    ensures len >= |d.data| + 4
  {
    UintLength(d.value)
      + UintLength(d.maxFeePerGas)
      + UintLength(d.maxPriorityFeePerGas)
      + StringLength(d.data)
      + AccessListLength(d.accessList)
  }

  /** The variable-size fields can each be framed on their own. */
  predicate FieldsFramable(d: SpanBatchEip1559TransactionData) {
    Framable(|d.data|) && Framable(ItemsPayloadLength(d.accessList))
  }

  /** The whole record can be framed: its payload size fits in a `usize`.
      Any record held in memory satisfies this. */
  predicate Encodable(d: SpanBatchEip1559TransactionData) {
    Framable(PayloadLength(d))
  }

  /** The five field encodings in their fixed order: value, max fee, max
      priority fee, calldata, access list. */
  function EncodeFields(d: SpanBatchEip1559TransactionData): (out: seq<Byte>)
    requires FieldsFramable(d)
    ensures |out| == PayloadLength(d)
  {
    EncodeUint(d.value)
      + EncodeUint(d.maxFeePerGas)
      + EncodeUint(d.maxPriorityFeePerGas)
      + EncodeString(d.data)
      + EncodeAccessList(d.accessList)
  }

  /** `Encodable::encode`: a list header declaring the summed field lengths,
      then the fields. */
  function Encode(d: SpanBatchEip1559TransactionData): (out: seq<Byte>)
    requires Encodable(d)
    ensures |out| == HeaderLength(PayloadLength(d)) + PayloadLength(d)
  {
    EncodeHeader(Header(true, PayloadLength(d))) + EncodeFields(d)
  }

  /** What a reader of the encoding sees: a list header whose declared
      payload is the summed field lengths, followed by exactly the five
      field encodings in order. */
  lemma EncodingShape(d: SpanBatchEip1559TransactionData)
    requires Encodable(d)
    ensures DecodeHeader(Encode(d)) == Ok((Header(true, PayloadLength(d)), HeaderLength(PayloadLength(d))))
    ensures Encode(d)[HeaderLength(PayloadLength(d))..] == EncodeFields(d)
  {
    var header := Header(true, PayloadLength(d));
    HeaderRoundTrip(header, EncodeFields(d));
  }

  /** Decoding. */

  /** The field decoders, in the same order as `EncodeFields`, each reading
      from what the previous one left. */
  function DecodeFields(buf: seq<Byte>): (r: Result<(SpanBatchEip1559TransactionData, seq<Byte>), Error>)
    ensures r.Ok? ==> FieldsFramable(r.value.0)
    ensures r.Ok? ==> buf == EncodeFields(r.value.0) + r.value.1
  {
    var value :- DecodeUint(buf);
    var maxFee :- DecodeUint(value.1);
    var maxPriorityFee :- DecodeUint(maxFee.1);
    var data :- DecodeBytes(maxPriorityFee.1, false);
    var accessList :- DecodeAccessList(data.1);
    var d := SpanBatchEip1559TransactionData(value.0, maxFee.0, maxPriorityFee.0, data.0, accessList.0);
    var rest := accessList.1;
    Chain(buf, EncodeUint(d.value), value.1, EncodeUint(d.maxFeePerGas), maxFee.1,
          EncodeUint(d.maxPriorityFeePerGas), maxPriorityFee.1, EncodeString(d.data), data.1,
          EncodeAccessList(d.accessList), rest);
    Ok((d, rest))
  }

  const EXPECTED_LIST_MESSAGE: string := "Expected list data for EIP-1559 transaction"
  const INVALID_RLP_MESSAGE: string := "Invalid EIP-1559 transaction RLP"

  /** `Decodable::decode`: a list header, the five fields read from the rest
      of the input, then a check that they used exactly the declared payload.

      Whatever it accepts is the encoding of the returned record followed by
      the untouched rest: re-encoding a decoded record reproduces the bytes
      it was decoded from. */
  function Decode(s: seq<Byte>): (r: Result<(SpanBatchEip1559TransactionData, seq<Byte>), Error>)
    ensures DecodeHeader(s).Err? ==> r == Err(DecodeHeader(s).error)
    ensures DecodeHeader(s).Ok? && !DecodeHeader(s).value.0.list ==>
              r == Err(Custom(EXPECTED_LIST_MESSAGE))
    ensures var dh := DecodeHeader(s);
            dh.Ok? && dh.value.0.list && DecodeFields(s[dh.value.1..]).Err? ==>
              r == Err(DecodeFields(s[dh.value.1..]).error)
    ensures var dh := DecodeHeader(s);
            dh.Ok? && dh.value.0.list && DecodeFields(s[dh.value.1..]).Ok? &&
            |s[dh.value.1..]| - |DecodeFields(s[dh.value.1..]).value.1| != dh.value.0.payloadLength ==>
              r == Err(Custom(INVALID_RLP_MESSAGE))
    ensures r.Ok? ==> Encodable(r.value.0) && s == Encode(r.value.0) + r.value.1
  {
    var dh :- DecodeHeader(s);
    var header := dh.0;
    if !header.list then Err(Custom(EXPECTED_LIST_MESSAGE))
    else
      var buf := s[dh.1..];
      var bufLenStart := |buf|;
      var fields :- DecodeFields(buf);
      // The header decoder has checked that the payload fits in what is
      // left, so this subtraction cannot go below zero.
      var expectedLen: nat := bufLenStart - header.payloadLength;
      if |fields.1| != expectedLen then Err(Custom(INVALID_RLP_MESSAGE))
      else
        ListFraming(s, header, dh.1, EncodeFields(fields.0), fields.1);
        Ok(fields)
  }

  /** Round trip. */

  /** `DecodeFields` succeeds with the record whose five fields the five
      decoders return in turn. */
  lemma DecodeFieldsSteps(buf: seq<Byte>, d: SpanBatchEip1559TransactionData,
                          t1: seq<Byte>, t2: seq<Byte>, t3: seq<Byte>, t4: seq<Byte>, rest: seq<Byte>)
    requires DecodeUint(buf) == Ok((d.value, t1))
    requires DecodeUint(t1) == Ok((d.maxFeePerGas, t2))
    requires DecodeUint(t2) == Ok((d.maxPriorityFeePerGas, t3))
    requires DecodeBytes(t3, false) == Ok((d.data, t4))
    requires DecodeAccessList(t4) == Ok((d.accessList, rest))
    ensures DecodeFields(buf) == Ok((d, rest))
  {
  }

  lemma FieldsRoundTrip(d: SpanBatchEip1559TransactionData, rest: seq<Byte>)
    requires FieldsFramable(d)
    ensures DecodeFields(EncodeFields(d) + rest) == Ok((d, rest))
  {
    var t4 := EncodeAccessList(d.accessList) + rest;
    var t3 := EncodeString(d.data) + t4;
    var t2 := EncodeUint(d.maxPriorityFeePerGas) + t3;
    var t1 := EncodeUint(d.maxFeePerGas) + t2;
    var buf := EncodeUint(d.value) + t1;
    Chain(buf, EncodeUint(d.value), t1, EncodeUint(d.maxFeePerGas), t2,
          EncodeUint(d.maxPriorityFeePerGas), t3, EncodeString(d.data), t4,
          EncodeAccessList(d.accessList), rest);
    assert EncodeFields(d) + rest == buf;
    UintRoundTrip(d.value, t1);
    UintRoundTrip(d.maxFeePerGas, t2);
    UintRoundTrip(d.maxPriorityFeePerGas, t3);
    DecodeBytesRoundTrip(d.data, false, t4);
    AccessListRoundTrip(d.accessList, rest);
    DecodeFieldsSteps(buf, d, t1, t2, t3, t4, rest);
  }

  /** Decoding the encoding of any record returns that record and leaves
      whatever followed the encoding untouched. */
  lemma RoundTrip(d: SpanBatchEip1559TransactionData, rest: seq<Byte>)
    requires Encodable(d)
    ensures Decode(Encode(d) + rest) == Ok((d, rest))
  {
    var fields := EncodeFields(d);
    var header := Header(true, |fields|);
    var hl := |EncodeHeader(header)|;
    var s := Encode(d) + rest;
    assert Encode(d) == EncodeHeader(header) + fields;
    HeaderRoundTrip(header, fields + rest);
    Assoc(EncodeHeader(header), fields, rest);
    assert DecodeHeader(s) == Ok((header, hl));
    var buf := s[hl..];
    assert buf == fields + rest;
    FieldsRoundTrip(d, rest);
    assert DecodeFields(buf) == Ok((d, rest));
    assert |buf| - header.payloadLength == |rest|;
  }

  /** A successful decode consumes the header and exactly the payload it
      declares, which is the summed length of the record's fields. */
  lemma DecodeConsumesDeclaredPayload(s: seq<Byte>)
    requires Decode(s).Ok?
    ensures DecodeHeader(s).Ok?
    ensures DecodeHeader(s).value.0 == Header(true, PayloadLength(Decode(s).value.0))
    ensures |s| - |Decode(s).value.1| == DecodeHeader(s).value.1 + DecodeHeader(s).value.0.payloadLength
  {
    var d := Decode(s).value.0;
    var rest := Decode(s).value.1;
    var header := Header(true, PayloadLength(d));
    HeaderRoundTrip(header, EncodeFields(d) + rest);
    Assoc(EncodeHeader(header), EncodeFields(d), rest);
  }

  /** Strict length. */

  /** No proper prefix of an encoding decodes: a truncated record is an error. */
  lemma TruncationRejected(d: SpanBatchEip1559TransactionData, k: nat)
    requires Encodable(d)
    requires k < |Encode(d)|
    ensures Decode(Encode(d)[..k]).Err?
  {
    var full := Encode(d);
    assert full + [] == full;
    var r := Decode(full[..k]);
    if r.Ok? {
      var d2 := r.value.0;
      var tail := r.value.1 + full[k..];
      assert |tail| > 0;
      SplitAt(full, k);
      Assoc(Encode(d2), r.value.1, full[k..]);
      RoundTrip(d2, tail);
      RoundTrip(d, []);
      assert false;
    }
  }

  /** A list header declaring any payload size other than the size of the
      fields that follow it is rejected, whether it declares more (padding)
      or fewer bytes. */
  lemma MisdeclaredLengthRejected(d: SpanBatchEip1559TransactionData, declared: nat, rest: seq<Byte>)
    requires FieldsFramable(d)
    requires Framable(declared)
    requires declared != PayloadLength(d)
    requires declared <= PayloadLength(d) + |rest|
    ensures Decode(EncodeHeader(Header(true, declared)) + EncodeFields(d) + rest)
            == Err(Custom(INVALID_RLP_MESSAGE))
  {
    var fields := EncodeFields(d);
    var header := Header(true, declared);
    var enc := EncodeHeader(header);
    var hl := |enc|;
    var s := enc + fields + rest;
    HeaderRoundTrip(header, fields + rest);
    Assoc(enc, fields, rest);
    assert DecodeHeader(s) == Ok((header, hl));
    var buf := s[hl..];
    assert buf == fields + rest;
    FieldsRoundTrip(d, rest);
    assert DecodeFields(buf) == Ok((d, rest));
    assert |buf| - declared != |rest|;
  }

  /** Header shape. */

  /** Input starting with a string header (first byte below 0xC0) never
      decodes to a record. */
  lemma NonListRejected(s: seq<Byte>)
    requires |s| > 0 && s[0] < EMPTY_LIST_CODE
    ensures Decode(s).Err?
  {
    var dh := DecodeHeader(s);
    if dh.Ok? && dh.value.1 > 0 {
      assert EncodeHeader(dh.value.0)[0] == s[0];
    }
  }

  /** In particular an encoded scalar or byte string is not a record. */
  lemma StringItemRejected(p: seq<Byte>, rest: seq<Byte>)
    requires Framable(|p|)
    ensures Decode(EncodeString(p) + rest).Err?
  {
    var s := EncodeString(p) + rest;
    if !(|p| == 1 && p[0] < EMPTY_STRING_CODE) {
      assert s[0] == EncodeHeader(Header(false, |p|))[0];
    }
    NonListRejected(s);
  }

  /** A scalar from 0x80 to 0xFF is a one-byte string item. */
  lemma OneByteUintEncoding(n: U256)
    requires 0x80 <= n < 0x100
    ensures EncodeUint(n) == [0x81, n]
  {
    assert ToBytes(n) == [n] by {
      assert ToBytes(0) == [];
    }
  }

  /** A byte string of 2 to 55 bytes is one length byte followed by the bytes. */
  lemma ShortStringEncoding(p: seq<Byte>)
    requires 2 <= |p| < 56
    ensures EncodeString(p) == [0x80 + |p|] + p
  {
    assert EncodeHeader(Header(false, |p|)) == [0x80 + |p|];
  }

  /** A list header for a payload under 56 bytes is the single byte 0xC0 + size. */
  lemma ShortListHeader(n: nat)
    requires n < 56
    ensures EncodeHeader(Header(true, n)) == [0xC0 + n]
  {
  }

  /** A record whose fields take under 56 bytes is one list-header byte
      followed by the field encodings. */
  lemma ShortRecordEncoding(d: SpanBatchEip1559TransactionData)
    requires FieldsFramable(d) && |EncodeFields(d)| < 56
    ensures Encodable(d)
    ensures Encode(d) == [0xC0 + |EncodeFields(d)|] + EncodeFields(d)
  {
    var fields := EncodeFields(d);
    assert Encodable(d);
    ShortListHeader(|fields|);
    assert Encode(d) == EncodeHeader(Header(true, |fields|)) + fields;
  }

  lemma EmptyAccessListEncoding()
    ensures EncodeAccessList([]) == [0xc0]
  {
    assert EncodeItems([]) == [];
  }

  /** The shape of the record in the encoding round-trip test (0xFF, 0xEE,
      0xDD, calldata 01 02 03, no access list): one-byte scalars of at least
      0x80, calldata of 2 to 47 bytes, and an empty access list. */
  predicate SmallRecord(d: SpanBatchEip1559TransactionData) {
    && 0x80 <= d.value < 0x100
    && 0x80 <= d.maxFeePerGas < 0x100
    && 0x80 <= d.maxPriorityFeePerGas < 0x100
    && 2 <= |d.data| < 48
    && d.accessList == []
  }

  /** The field bytes of such a record: three two-byte scalars, the
      calldata behind its one-byte header, and the empty list. */
  function SmallFieldBytes(d: SpanBatchEip1559TransactionData): (out: seq<Byte>)
    requires SmallRecord(d)
    ensures |out| == 8 + |d.data|
  {
    [0x81, d.value, 0x81, d.maxFeePerGas, 0x81, d.maxPriorityFeePerGas, 0x80 + |d.data|] + d.data + [0xc0]
  }

  /** The bytes of such a record: one list-header byte, then the fields. For
      the test record this is `cb 81 ff 81 ee 81 dd 83 01 02 03 c0`. */
  function SmallRecordBytes(d: SpanBatchEip1559TransactionData): (out: seq<Byte>)
    requires SmallRecord(d)
    ensures |out| == 9 + |d.data|
  {
    [0xC8 + |d.data|] + SmallFieldBytes(d)
  }

  lemma SmallRecordFields(d: SpanBatchEip1559TransactionData)
    requires SmallRecord(d)
    ensures FieldsFramable(d)
    ensures EncodeFields(d) == SmallFieldBytes(d)
  {
    OneByteUintEncoding(d.value);
    OneByteUintEncoding(d.maxFeePerGas);
    OneByteUintEncoding(d.maxPriorityFeePerGas);
    ShortStringEncoding(d.data);
    EmptyAccessListEncoding();
    var scalars: seq<Byte> := [0x81, d.value, 0x81, d.maxFeePerGas, 0x81, d.maxPriorityFeePerGas];
    var dataHeader: seq<Byte> := [0x80 + |d.data|];
    assert EncodeUint(d.value) + EncodeUint(d.maxFeePerGas) + EncodeUint(d.maxPriorityFeePerGas) == scalars;
    Assoc(scalars, dataHeader, d.data);
    assert scalars + dataHeader == [0x81, d.value, 0x81, d.maxFeePerGas, 0x81, d.maxPriorityFeePerGas, 0x80 + |d.data|];
  }

  lemma SmallRecordEncoding(d: SpanBatchEip1559TransactionData)
    requires SmallRecord(d)
    ensures Encodable(d)
    ensures Encode(d) == SmallRecordBytes(d)
  {
    SmallRecordFields(d);
    ShortRecordEncoding(d);
  }

  /** The test's assertion: decoding those bytes reproduces the record and
      consumes all of them. */
  lemma SmallRecordRoundTrip(d: SpanBatchEip1559TransactionData)
    requires SmallRecord(d)
    ensures Decode(SmallRecordBytes(d)) == Ok((d, []))
  {
    SmallRecordEncoding(d);
    RoundTrip(d, []);
    assert Encode(d) + [] == Encode(d);
  }

  /** Reconstruction. */

  /** Slice to `[u8; 16]` conversion: fails exactly when the slice does not
      have 16 bytes. */
  function TryIntoArray16(slice: seq<Byte>): (r: Result<seq<Byte>, SpanBatchError>)
    ensures r.Ok? <==> |slice| == 16
    ensures r.Ok? ==> r.value == slice
  {
    if |slice| == 16 then Ok(slice) else Err(Decoding(InvalidTransactionData))
  }

  /** A fee as narrowed by `to_enveloped_tx`: the last 16 of the 32
      big-endian bytes, read as a `u128`. The slice always has 16 bytes, so
      the error branch is dead and the high 128 bits are dropped. */
  function LowFee(x: U256): (r: Result<U128, SpanBatchError>)
    ensures r == Ok(x % U128_LIMIT)
  {
    var low := ToBytesFixed(x, 32)[16..];
    match TryIntoArray16(low)
    case Err(e) => Result<U128, SpanBatchError>.Err(e)
    case Ok(bytes) =>
      Pow256Limits();
      ToBytesFixedSuffix(x, 32, 16);
      FromBytesFixed(x, 16);
      Ok(FromBytes(bytes))
  }

  /** A fee narrowed with a range check: values of 2^128 and above are
      rejected as invalid transaction data. */
  function CheckedFee(x: U256): (r: Result<U128, SpanBatchError>)
    ensures r.Ok? <==> x < U128_LIMIT
    ensures r.Ok? ==> r.value == x
    ensures r.Err? ==> r.error == Decoding(InvalidTransactionData)
  {
    if x < U128_LIMIT then
      ModUnique(x, U128_LIMIT, 0, x);
      LowFee(x)
    else
      Err(Decoding(InvalidTransactionData))
  }

  /** The EIP-1559 transaction built from the record, the shared fields and
      already narrowed fees, signed with the given signature over its
      signing hash. `None` as destination means contract creation. */
  function Assemble(
    d: SpanBatchEip1559TransactionData, maxFee: U128, maxPriorityFee: U128,
    nonce: U64, gas: U64, to: Option<Address>, chainId: U64,
    signature: Signature, signatureHash: TxEip1559 -> B256): (r: TxEnvelope)
    ensures r.signed.tx.maxFeePerGas == maxFee && r.signed.tx.maxPriorityFeePerGas == maxPriorityFee
    ensures CarriesSharedFields(r.signed.tx, nonce, gas, to, chainId)
    ensures RecordOf(r.signed.tx) == d.(maxFeePerGas := maxFee, maxPriorityFeePerGas := maxPriorityFee)
    ensures r.signed.signature == signature && r.signed.hash == signatureHash(r.signed.tx)
  {
    var tx := TxEip1559(
      chainId, nonce, gas, maxFee, maxPriorityFee,
      if to.Some? then Call(to.value) else Create,
      d.value, d.data, d.accessList);
    Eip1559(Signed(tx, signature, signatureHash(tx)))
  }

  /** The transaction carries the shared fields it was given. */
  predicate CarriesSharedFields(tx: TxEip1559, nonce: U64, gas: U64, to: Option<Address>, chainId: U64) {
    && tx.chainId == chainId
    && tx.nonce == nonce
    && tx.gasLimit == gas
    && (to.None? <==> tx.to == Create)
    && (to.Some? ==> tx.to == Call(to.value))
  }

  /** The transaction carries the record's value, calldata and access list. */
  predicate CarriesRecordFields(tx: TxEip1559, d: SpanBatchEip1559TransactionData) {
    tx.value == d.value && tx.input == d.data && tx.accessList == d.accessList
  }

  /** The record a span batch would keep for a transaction: the inverse of
      reconstruction on the per-transaction fields. */
  function RecordOf(tx: TxEip1559): SpanBatchEip1559TransactionData {
    SpanBatchEip1559TransactionData(tx.value, tx.maxFeePerGas, tx.maxPriorityFeePerGas, tx.input, tx.accessList)
  }

  /** `to_enveloped_tx` as written: it always succeeds, and each fee is the
      record's fee modulo 2^128. */
  function ToEnvelopedTx(
    d: SpanBatchEip1559TransactionData, nonce: U64, gas: U64, to: Option<Address>, chainId: U64,
    signature: Signature, signatureHash: TxEip1559 -> B256): (r: Result<TxEnvelope, SpanBatchError>)
    ensures r.Ok?
    ensures r.Ok? ==> r.value.signed.tx.maxFeePerGas == d.maxFeePerGas % U128_LIMIT
    ensures r.Ok? ==> r.value.signed.tx.maxPriorityFeePerGas == d.maxPriorityFeePerGas % U128_LIMIT
    ensures r.Ok? ==> CarriesSharedFields(r.value.signed.tx, nonce, gas, to, chainId)
    ensures r.Ok? ==> CarriesRecordFields(r.value.signed.tx, d)
    ensures r.Ok? ==> r.value.signed.signature == signature
    ensures r.Ok? ==> r.value.signed.hash == signatureHash(r.value.signed.tx)
  {
    match LowFee(d.maxFeePerGas)
    case Err(e) => Err(e)
    case Ok(maxFee) =>
      match LowFee(d.maxPriorityFeePerGas)
      case Err(e) => Err(e)
      case Ok(maxPriorityFee) =>
        Ok(Assemble(d, maxFee, maxPriorityFee, nonce, gas, to, chainId, signature, signatureHash))
  }

  /** Reconstruction with range-checked fees: fails with invalid transaction
      data exactly when a fee does not fit in 128 bits, and otherwise keeps
      every field of the record. */
  function ToEnvelopedTxChecked(
    d: SpanBatchEip1559TransactionData, nonce: U64, gas: U64, to: Option<Address>, chainId: U64,
    signature: Signature, signatureHash: TxEip1559 -> B256): (r: Result<TxEnvelope, SpanBatchError>)
    ensures r.Ok? <==> d.maxFeePerGas < U128_LIMIT && d.maxPriorityFeePerGas < U128_LIMIT
    ensures r.Err? ==> r.error == Decoding(InvalidTransactionData)
    ensures r.Ok? ==> RecordOf(r.value.signed.tx) == d
    ensures r.Ok? ==> CarriesSharedFields(r.value.signed.tx, nonce, gas, to, chainId)
    ensures r.Ok? ==> r.value.signed.signature == signature
    ensures r.Ok? ==> r.value.signed.hash == signatureHash(r.value.signed.tx)
  {
    var maxFee :- CheckedFee(d.maxFeePerGas);
    var maxPriorityFee :- CheckedFee(d.maxPriorityFeePerGas);
    Ok(Assemble(d, maxFee, maxPriorityFee, nonce, gas, to, chainId, signature, signatureHash))
  }

  /** While both fees fit in 128 bits the two reconstructions agree, and the
      record can be read back from the transaction. */
  lemma CheckedAgreesWhenFeesFit(
    d: SpanBatchEip1559TransactionData, nonce: U64, gas: U64, to: Option<Address>, chainId: U64,
    signature: Signature, signatureHash: TxEip1559 -> B256)
    requires d.maxFeePerGas < U128_LIMIT && d.maxPriorityFeePerGas < U128_LIMIT
    ensures ToEnvelopedTxChecked(d, nonce, gas, to, chainId, signature, signatureHash)
            == ToEnvelopedTx(d, nonce, gas, to, chainId, signature, signatureHash)
    ensures RecordOf(ToEnvelopedTx(d, nonce, gas, to, chainId, signature, signatureHash).value.signed.tx) == d
  {
  }

  /** A fee of exactly 2^128 goes through `to_enveloped_tx` as a zero fee,
      where the checked reconstruction rejects it. */
  lemma FeeTruncationWitness(
    nonce: U64, gas: U64, to: Option<Address>, chainId: U64,
    signature: Signature, signatureHash: TxEip1559 -> B256)
    ensures var d := SpanBatchEip1559TransactionData(0, U128_LIMIT, 0, [], []);
            && ToEnvelopedTx(d, nonce, gas, to, chainId, signature, signatureHash).Ok?
            && ToEnvelopedTx(d, nonce, gas, to, chainId, signature, signatureHash).value.signed.tx.maxFeePerGas == 0
            && RecordOf(ToEnvelopedTx(d, nonce, gas, to, chainId, signature, signatureHash).value.signed.tx) != d
            && ToEnvelopedTxChecked(d, nonce, gas, to, chainId, signature, signatureHash)
               == Err(Decoding(InvalidTransactionData))
  {
  }
}
