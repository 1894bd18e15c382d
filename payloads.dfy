/**
 * The payload types carried by eth protocol messages. Their contents and RLP codecs are
 * not part of this model: each is an opaque type, and its codec is supplied by the caller
 * together with the hypothesis `ValidCodecs` that every codec round-trips.
 */
module Payloads {
  import opened Rlp

  type Status(==, !new)
  type NewBlockHashes(==, !new)
  type NewBlock(==, !new)
  type Transactions(==, !new)
  /** The shared (`Arc`) transaction list of an outgoing broadcast. */
  type SharedTransactions(==, !new)
  type NewPooledTransactionHashes(==, !new)
  type GetBlockHeaders(==, !new)
  type BlockHeaders(==, !new)
  type GetBlockBodies(==, !new)
  type BlockBodies(==, !new)
  type GetPooledTransactions(==, !new)
  type PooledTransactions(==, !new)
  type GetNodeData(==, !new)
  type NodeData(==, !new)
  type GetReceipts(==, !new)
  type Receipts(==, !new)

  /** One codec per payload type. */
  datatype PayloadCodecs = PayloadCodecs(
    status: Codec<Status>,
    newBlockHashes: Codec<NewBlockHashes>,
    newBlock: Codec<NewBlock>,
    transactions: Codec<Transactions>,
    sharedTransactions: Codec<SharedTransactions>,
    newPooledTransactionHashes: Codec<NewPooledTransactionHashes>,
    getBlockHeaders: Codec<GetBlockHeaders>,
    blockHeaders: Codec<BlockHeaders>,
    getBlockBodies: Codec<GetBlockBodies>,
    blockBodies: Codec<BlockBodies>,
    getPooledTransactions: Codec<GetPooledTransactions>,
    pooledTransactions: Codec<PooledTransactions>,
    getNodeData: Codec<GetNodeData>,
    nodeData: Codec<NodeData>,
    getReceipts: Codec<GetReceipts>,
    receipts: Codec<Receipts>)

  ghost predicate ValidCodecs(cs: PayloadCodecs) {
    && ValidCodec(cs.status)
    && ValidCodec(cs.newBlockHashes)
    && ValidCodec(cs.newBlock)
    && ValidCodec(cs.transactions)
    && ValidCodec(cs.sharedTransactions)
    && ValidCodec(cs.newPooledTransactionHashes)
    && ValidCodec(cs.getBlockHeaders)
    && ValidCodec(cs.blockHeaders)
    && ValidCodec(cs.getBlockBodies)
    && ValidCodec(cs.blockBodies)
    && ValidCodec(cs.getPooledTransactions)
    && ValidCodec(cs.pooledTransactions)
    && ValidCodec(cs.getNodeData)
    && ValidCodec(cs.nodeData)
    && ValidCodec(cs.getReceipts)
    && ValidCodec(cs.receipts)
  }
}
