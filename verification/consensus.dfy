/** The transaction types the record is turned into. They belong to the
    consensus types the codec imports; only their field sets are modelled. */
module Consensus {
  import opened Primitives
  import opened Eip2930

  /** Destination of a transaction: contract creation or a call. */
  datatype TxKind = Create | Call(to: Address)

  /** `TxEip1559`: the EIP-1559 transaction fields, fees 128 bits wide. */
  datatype TxEip1559 = TxEip1559(
    chainId: U64,
    nonce: U64,
    gasLimit: U64,
    maxFeePerGas: U128,
    maxPriorityFeePerGas: U128,
    to: TxKind,
    value: U256,
    input: seq<Byte>,
    accessList: AccessList)

  /** An ECDSA signature, treated as an opaque value. */
  datatype Signature = Signature(r: U256, s: U256, oddYParity: bool)

  /** `Signed<TxEip1559>`: the transaction, its signature and its signing hash. */
  datatype Signed = Signed(tx: TxEip1559, signature: Signature, hash: B256)

  /** `TxEnvelope`, restricted to the EIP-1559 kind this codec produces. */
  datatype TxEnvelope = Eip1559(signed: Signed)

  datatype SpanDecodingError = InvalidTransactionData

  datatype SpanBatchError = Decoding(error: SpanDecodingError)
}
