# Span-batch EIP-1559 transaction data, modelled in Dafny

A span batch is the compressed form in which an optimistic rollup posts many
L2 transactions to L1. For each EIP-1559 (fee-market) transaction the batch
keeps only the fields that are not shared across the batch. These are
`value`, `max_fee_per_gas`, `max_priority_fee_per_gas`, `data` and
`access_list`, held in a `SpanBatchEip1559TransactionData` record. The batch
supplies the other fields (nonce, gas limit, destination, chain id,
signature) when it rebuilds the transaction.

This project models that record in three parts:

- its RLP encoding: a list header, then the five fields in a fixed order;
- its strict RLP decoding: the header must be a list, and the fields must use
  exactly the payload the header declares;
- `to_enveloped_tx`, which combines the record with the shared fields into a
  signed EIP-1559 transaction envelope.

The RLP layer below the record is the canonical RLP of Appendix B of the
Ethereum Yellow Paper. It covers list and string headers, byte strings,
256-bit scalars, fixed-size byte arrays, and the EIP-2930 access list
`[[address, [storageKey, ...]], ...]`. Canonical means:

- scalars are minimal big-endian, with no leading zero;
- a single byte below 0x80 stands for itself;
- long lengths use the long form only from 56 bytes on, without leading zeros;
- a header may not declare more payload than the input has left.

The RLP layer follows the structure of `alloy_rlp`, which is not part of this
model.

Files, one module each:

- `primitives.dfy`: integer widths (`U64`, `U128`, `U256`), `Byte`, `Address`, `B256`, powers of 256
- `big_endian.dfy`: minimal and fixed-width big-endian byte strings (`to_be_bytes`, `from_be_bytes`)
- `rlp.dfy`: headers, strings, scalars, fixed arrays, list framing
- `eip2930.dfy`: the access list and its codec
- `consensus.dfy`: the `TxEip1559`, `Signed`, `TxEnvelope` and error types the record is turned into
- `span_batch_eip1559.dfy`: the record, `encode`, `decode` and `to_enveloped_tx`
- `wrappers.dfy`, `seqs.dfy`: the `Result` type and concatenation facts

Every decoder takes the remaining input and returns the value plus the input
it left over. This is how `alloy_rlp` advances its `&mut &[u8]` cursor.

Each decoder's contract states canonicity. Whatever it accepts is exactly the
encoding of the value it returns, followed by the untouched rest. Each encoder
has a round-trip lemma as its partner.

## Model

| member | source | states |
|---|---|---|
| Rlp.DecodeHeader | crates/derive/src/types/batch/span_batch/tx_data/eip1559.rs:91 | An accepted header never declares more payload than the input has left. The decode at line 105 relies on this. Every accepted header re-encodes to exactly the bytes it consumed. A byte below 0x80 is a one-byte string header that consumes nothing. |
| Rlp.HeaderRoundTrip | crates/derive/src/types/batch/span_batch/tx_data/eip1559.rs:75-80 | A header written by `header.encode` and followed by its payload decodes to the same header and consumes the header's own length. |
| Rlp.DecodeBytes | crates/derive/src/types/batch/span_batch/tx_data/eip1559.rs:102 | `Bytes::decode` accepts only a string item. What it accepts is the canonical encoding of the returned bytes, followed by the rest. |
| Rlp.DecodeBytesRoundTrip | crates/derive/src/types/batch/span_batch/tx_data/eip1559.rs:84 | Decoding an encoded byte string (or list payload) returns it and leaves the following bytes alone. |
| Rlp.DecodeUint | crates/derive/src/types/batch/span_batch/tx_data/eip1559.rs:99-101 | `U256::decode` accepts only the minimal big-endian form: no leading zero and at most 32 bytes. Re-encoding the value reproduces the consumed bytes. |
| Rlp.UintRoundTrip | crates/derive/src/types/batch/span_batch/tx_data/eip1559.rs:81-83 | Every 256-bit value written by `U256::encode` decodes back to itself. |
| Rlp.DecodeFixed | crates/derive/src/types/batch/span_batch/tx_data/eip1559.rs:103 | A 20-byte address or 32-byte storage key is a string item of exactly that size. Any other size is rejected. |
| Rlp.FixedRoundTrip | crates/derive/src/types/batch/span_batch/tx_data/eip1559.rs:85 | An encoded address or storage key decodes back to itself. |
| Eip2930.DecodeKeys | crates/derive/src/types/batch/span_batch/tx_data/eip1559.rs:103 | The storage keys decoded from a list payload re-encode to exactly that payload. |
| Eip2930.DecodeAccessListItem | crates/derive/src/types/batch/span_batch/tx_data/eip1559.rs:103 | An access-list item decodes only when its two fields use exactly the declared payload. It is then the canonical encoding of the returned item. |
| Eip2930.AccessListItemRoundTrip | crates/derive/src/types/batch/span_batch/tx_data/eip1559.rs:85 | An encoded `[address, [keys]]` item decodes back to itself. |
| Eip2930.DecodeItems | crates/derive/src/types/batch/span_batch/tx_data/eip1559.rs:103 | The items decoded from a list payload have summed lengths equal to the payload size. They re-encode to exactly that payload. |
| Eip2930.ItemsRoundTrip | crates/derive/src/types/batch/span_batch/tx_data/eip1559.rs:85 | Concatenated item encodings decode back to the same item sequence. |
| Eip2930.EncodeAccessList | crates/derive/src/types/batch/span_batch/tx_data/eip1559.rs:74 | The access list's `length()` equals the length of what its `encode` writes. |
| Eip2930.DecodeAccessList | crates/derive/src/types/batch/span_batch/tx_data/eip1559.rs:103 | An access list decodes only from its canonical encoding, followed by the rest. |
| Eip2930.AccessListRoundTrip | crates/derive/src/types/batch/span_batch/tx_data/eip1559.rs:85 | Every framable access list decodes back to itself and leaves the following bytes alone. |
| SpanBatchEip1559.EncodeFields | crates/derive/src/types/batch/span_batch/tx_data/eip1559.rs:70-74 | The `payload_length` computed from the five fields' `length()` equals the number of field bytes written. |
| SpanBatchEip1559.Encode | crates/derive/src/types/batch/span_batch/tx_data/eip1559.rs:68-86 | The output is header length + `payload_length` bytes long. |
| SpanBatchEip1559.EncodingShape | crates/derive/src/types/batch/span_batch/tx_data/eip1559.rs:75-85 | The output starts with a header that has `list = true` and whose declared payload is the summed field length. Exactly the five field encodings follow it: value, max fee, max priority fee, data, access list. |
| SpanBatchEip1559.DecodeFields | crates/derive/src/types/batch/span_batch/tx_data/eip1559.rs:99-103 | The fields are read in the same order the encoder writes them. What they consume is exactly the five field encodings of the returned record. |
| SpanBatchEip1559.FieldsRoundTrip | crates/derive/src/types/batch/span_batch/tx_data/eip1559.rs:81-85 | The field decoders read back exactly what the field encoders wrote, in the same order. |
| SpanBatchEip1559.Decode | crates/derive/src/types/batch/span_batch/tx_data/eip1559.rs:89-116 | A header error is passed on. A string header fails with "Expected list data". A field error is passed on. A consumed byte count that differs from `payload_length` fails with "Invalid EIP-1559 transaction RLP". On success the input is the record's encoding followed by untouched bytes, so re-encoding reproduces the input. |
| SpanBatchEip1559.RoundTrip | crates/derive/src/types/batch/span_batch/tx_data/eip1559.rs:68-116 | Decoding the encoding of any record returns an equal record and leaves whatever followed the encoding untouched. |
| SpanBatchEip1559.DecodeConsumesDeclaredPayload | crates/derive/src/types/batch/span_batch/tx_data/eip1559.rs:97-107 | A successful decode read a list header declaring the record's summed field length. It consumed exactly that header plus `payload_length` bytes. |
| SpanBatchEip1559.TruncationRejected | crates/derive/src/types/batch/span_batch/tx_data/eip1559.rs:105-107 | No proper prefix of an encoded record decodes. |
| SpanBatchEip1559.MisdeclaredLengthRejected | crates/derive/src/types/batch/span_batch/tx_data/eip1559.rs:105-107 | A list header that declares more or fewer bytes than the fields after it is rejected with "Invalid EIP-1559 transaction RLP", provided the declared size fits in the input. A larger size fails earlier, in the header, with `InputTooShort` (see `Rlp.DecodeHeader`). |
| SpanBatchEip1559.NonListRejected | crates/derive/src/types/batch/span_batch/tx_data/eip1559.rs:92-96 | Input whose first byte is below 0xC0 (a string item) never decodes to a record. |
| SpanBatchEip1559.StringItemRejected | crates/derive/src/types/batch/span_batch/tx_data/eip1559.rs:92-96 | An encoded scalar or byte string fed to the record decoder is an error. |
| SpanBatchEip1559.OneByteUintEncoding | crates/derive/src/types/batch/span_batch/tx_data/eip1559.rs:128-130 | A scalar from 0x80 to 0xFF is encoded as the two bytes 0x81, n. |
| SpanBatchEip1559.SmallRecordEncoding | crates/derive/src/types/batch/span_batch/tx_data/eip1559.rs:127-135 | Any record shaped like the test record (one-byte scalars of at least 0x80, 2 to 47 bytes of calldata, no access list) encodes to one list-header byte 0xC8 + calldata length, then `81 v 81 maxFee 81 priorityFee`, the calldata behind its length byte, and `c0`. For the test record (0xFF, 0xEE, 0xDD, [1, 2, 3]) that is `cb 81 ff 81 ee 81 dd 83 01 02 03 c0`. |
| SpanBatchEip1559.SmallRecordRoundTrip | crates/derive/src/types/batch/span_batch/tx_data/eip1559.rs:126-146 | Decoding those bytes yields the same record and consumes all of them, which is the test's assertion, for every record of that shape. |
| BigEndian.ToBytesFixedSuffix | crates/derive/src/types/batch/span_batch/tx_data/eip1559.rs:39 | Bytes `[16..]` of the 32-byte big-endian form are the 16-byte form of the same value. |
| BigEndian.FromBytesFixed | crates/derive/src/types/batch/span_batch/tx_data/eip1559.rs:38-39 | Reading back a `w`-byte big-endian form yields the value modulo 256^w. |
| Rlp.EncodeHeader | crates/derive/src/types/batch/span_batch/tx_data/eip1559.rs:75-80 | `header.encode` writes exactly `Header::length` bytes, one to nine of them. The first byte is at least 0x80, and it is at least 0xC0 exactly when the header is a list header. |
| Rlp.StringLength | crates/derive/src/types/batch/span_batch/tx_data/eip1559.rs:73 | `Bytes::length` is at least the byte count. It equals the byte count exactly when the string is one byte below 0x80, which is written without a header. |
| Rlp.EncodeString | crates/derive/src/types/batch/span_batch/tx_data/eip1559.rs:84 | `Bytes::encode` writes exactly `Bytes::length` bytes, and they end with the string itself. |
| Rlp.UintLength | crates/derive/src/types/batch/span_batch/tx_data/eip1559.rs:70-72 | `U256::length` is between 1 and 33. It is 1 exactly when the value is below 0x80. |
| Rlp.EncodeUint | crates/derive/src/types/batch/span_batch/tx_data/eip1559.rs:81-83 | `U256::encode` writes exactly `U256::length` bytes. Zero is the empty string 0x80, and a value from 1 to 0x7F is the single byte itself. |
| SpanBatchEip1559.PayloadLength | crates/derive/src/types/batch/span_batch/tx_data/eip1559.rs:70-74 | `payload_length` is at least the calldata size plus 4: each of the three scalars and the access list takes at least one byte. It equals the number of field bytes written, as stated by `SpanBatchEip1559.EncodeFields`. |
| SpanBatchEip1559.TryIntoArray16 | crates/derive/src/types/batch/span_batch/tx_data/eip1559.rs:40-43 | The slice-to-`[u8; 16]` conversion succeeds exactly when the slice has 16 bytes, and it keeps the bytes unchanged. |
| SpanBatchEip1559.Assemble | crates/derive/src/types/batch/span_batch/tx_data/eip1559.rs:35-63 | The built transaction has the given narrowed fees, the shared fields (`None` becomes `Create`), and the record's value, calldata and access list. Reading the record back from it gives the record with the fees replaced. The envelope carries the given signature and the signing hash of that transaction. |
| SpanBatchEip1559.LowFee | crates/derive/src/types/batch/span_batch/tx_data/eip1559.rs:38-51 | The fee narrowing always succeeds, because the slice has 16 bytes. Its result is the fee modulo 2^128. |
| SpanBatchEip1559.ToEnvelopedTx | crates/derive/src/types/batch/span_batch/tx_data/eip1559.rs:27-65 | Always returns `Ok`. Each fee is the record's fee modulo 2^128. `chain_id`, `nonce`, `gas` (as `gas_limit`), `value`, `data` and `access_list` are copied unchanged. `None` becomes `Create` and `Some(a)` becomes `Call(a)`. The envelope carries the given signature and the signing hash of the built transaction. |
| SpanBatchEip1559.CheckedFee | crates/derive/src/types/batch/span_batch/tx_data/eip1559.rs:38-51 | The range-checked narrowing succeeds exactly when the fee is below 2^128, and then keeps the value. Otherwise it fails with `InvalidTransactionData`. |
| SpanBatchEip1559.ToEnvelopedTxChecked | crates/derive/src/types/batch/span_batch/tx_data/eip1559.rs:27-65 | The checked reconstruction fails with `InvalidTransactionData` exactly when a fee is at least 2^128. Otherwise the record can be read back from the transaction unchanged. |
| SpanBatchEip1559.CheckedAgreesWhenFeesFit | crates/derive/src/types/batch/span_batch/tx_data/eip1559.rs:35-64 | While both fees fit in 128 bits, the as-written and checked reconstructions return the same envelope. The record can be read back from it. |
| SpanBatchEip1559.FeeTruncationWitness | crates/derive/src/types/batch/span_batch/tx_data/eip1559.rs:38-44 | `max_fee_per_gas` = 2^128 becomes a zero fee under `to_enveloped_tx`, where the checked reconstruction rejects it. |

## Findings

| source | as written | input that shows it | evidently intended | confidence | as-written member | corrected member |
|---|---|---|---|---|---|---|
| crates/derive/src/types/batch/span_batch/tx_data/eip1559.rs:38-51 | The fee is narrowed to `u128` from bytes `[16..]` of its 32-byte form. The `try_into` of a 16-byte slice cannot fail, so the `InvalidTransactionData` mapping never fires and the high 128 bits are dropped silently. | a record with `max_fee_per_gas` = 2^128 is rebuilt with `max_fee_per_gas` = 0 | reject a fee of 2^128 or more with `InvalidTransactionData`, as the error mapping suggests | medium (the code is unambiguous, the intent is inferred from the dead error mapping); not executed | SpanBatchEip1559.FeeTruncationWitness | SpanBatchEip1559.ToEnvelopedTxChecked |

The as-written behaviour is `SpanBatchEip1559.ToEnvelopedTx`. The
`InvalidTransactionData` mapping at eip1559.rs:41-43 suggests out-of-range fees
were meant to be rejected, but the code truncates them. The model follows the
code. The checked variant `SpanBatchEip1559.ToEnvelopedTxChecked`
states the intended behaviour, and `SpanBatchEip1559.CheckedAgreesWhenFeesFit`
shows the two agree on every record whose fees fit in 128 bits.

## Left out

- The trusted-sync driver loop (examples/trusted-sync/src/main.rs) is left out. It is an async loop over RPC providers, blob and beacon clients, an HTTP validator and logging, with no self-contained logic.
- `signature_hash()` (keccak-256 over the EIP-1559 signing payload) is a function parameter `signatureHash` of the reconstruction. `Signature` is an opaque value.
- `Signed::new_unchecked` is the `Signed` constructor. The envelope type has only the EIP-1559 variant, because the other transaction kinds are not part of this model.
- The `SpanBatchTransactionData` wrapper used by the round-trip test is not part of this model. Any type byte it adds is therefore not modelled, and the round trip is stated for the record itself.
- The legacy and EIP-2930 span-batch transaction kinds and the span-batch container are not part of this model.
- `alloy_rlp` is not part of this model. Its decoders are written from the canonical rules of Appendix B of the Yellow Paper, in the order and with the error kinds `alloy_rlp` uses. Other non-canonical inputs may get a different error kind than `alloy_rlp` gives them, but they are rejected all the same.
- SpanBatchEip1559.Encode: requires the record's payload length to be below 2^64. A length prefix cannot be longer than eight bytes, and any record held in a 64-bit process meets this bound. The other encoders carry the same bound on their own payloads.
- Decoding leaves bytes that follow a record to the caller, as `decode` does with its buffer. Padding after a complete record is therefore not an error at this level. Padding inside the declared payload is an error (`SpanBatchEip1559.MisdeclaredLengthRejected`).
- On a decoding error the model returns only the error. `alloy_rlp` decoders take a `&mut &[u8]` cursor, and a failing `?` at eip1559.rs:91 or 99-103 leaves it partly advanced past the reads that succeeded. No caller resumes from that cursor after an error, so the partly advanced input is not modelled.
- Error values are kept at the level of their kind (`alloy_rlp::Error` cases, the two `Custom` messages, `InvalidTransactionData`). Formatting of errors and logging are not modelled.
