/**
 * The message set of eth/66: broadcast messages carry their payload directly, and every
 * request/response message is wrapped in a `RequestPair` with its request id.
 */
module Eth66 {
  import opened Common
  import opened Rlp
  import P = Payloads
  import M = Message

  datatype Eth66Message =
    | NewBlockHashes(hashes: P.NewBlockHashes)
    | NewBlock(block: P.NewBlock)
    | Transactions(transactions: P.Transactions)
    | NewPooledTransactionHashes(pooledHashes: P.NewPooledTransactionHashes)
    | GetBlockHeaders(getHeaders: M.RequestPair<P.GetBlockHeaders>)
    | BlockHeaders(headers: M.RequestPair<P.BlockHeaders>)
    | GetBlockBodies(getBodies: M.RequestPair<P.GetBlockBodies>)
    | BlockBodies(bodies: M.RequestPair<P.BlockBodies>)
    | GetPooledTransactions(getPooled: M.RequestPair<P.GetPooledTransactions>)
    | PooledTransactions(pooled: M.RequestPair<P.PooledTransactions>)
    | GetNodeData(getNodeData: M.RequestPair<P.GetNodeData>)
    | NodeData(nodeData: M.RequestPair<P.NodeData>)
    | GetReceipts(getReceipts: M.RequestPair<P.GetReceipts>)
    | Receipts(receipts: M.RequestPair<P.Receipts>)

  /** The IDs whose messages carry a request id in this version. */
  predicate HasRequestId(id: M.EthMessageID) {
    M.IsRequestResponse(id)
  }

  /** `EthMessage::message_id`. */
  function MessageId(m: Eth66Message): M.EthMessageID
  {
    match m
    case NewBlockHashes(_) => M.NewBlockHashes
    case NewBlock(_) => M.NewBlock
    case Transactions(_) => M.Transactions
    case NewPooledTransactionHashes(_) => M.NewPooledTransactionHashes
    case GetBlockHeaders(_) => M.GetBlockHeaders
    case BlockHeaders(_) => M.BlockHeaders
    case GetBlockBodies(_) => M.GetBlockBodies
    case BlockBodies(_) => M.BlockBodies
    case GetPooledTransactions(_) => M.GetPooledTransactions
    case PooledTransactions(_) => M.PooledTransactions
    case GetNodeData(_) => M.GetNodeData
    case NodeData(_) => M.NodeData
    case GetReceipts(_) => M.GetReceipts
    case Receipts(_) => M.Receipts
  }

  /** The request id of a request/response message; broadcasts have none. */
  function RequestId(m: Eth66Message): Option<U64>
  {
    match m
    case GetBlockHeaders(p) => Some(p.requestId)
    case BlockHeaders(p) => Some(p.requestId)
    case GetBlockBodies(p) => Some(p.requestId)
    case BlockBodies(p) => Some(p.requestId)
    case GetPooledTransactions(p) => Some(p.requestId)
    case PooledTransactions(p) => Some(p.requestId)
    case GetNodeData(p) => Some(p.requestId)
    case NodeData(p) => Some(p.requestId)
    case GetReceipts(p) => Some(p.requestId)
    case Receipts(p) => Some(p.requestId)
    case _ => None
  }

  /** `EthMessage::decode`: the payload type is chosen by the ID, and a decoded message
      has the ID it was decoded under; `Status` is not an eth/66 message and is rejected.
      Errors of the payload decoders are returned unchanged. */
  function Decode(cs: P.PayloadCodecs, id: M.EthMessageID, buf: Bytes): (r: Result<(Eth66Message, Bytes), DecodeError>)
    ensures r.Ok? ==> MessageId(r.value.0) == id
    ensures id == M.Status ==> r == Err(Custom("invalid message id"))
  {
    if HasRequestId(id) then DecodeRequest(cs, id, M.DecodeRequestId(buf))
    else
      match id
      case NewBlockHashes =>
        (match cs.newBlockHashes.decode(buf)
         case Err(e) => Err(e)
         case Ok((x, rest)) => Ok((NewBlockHashes(x), rest)))
      case NewBlock =>
        (match cs.newBlock.decode(buf)
         case Err(e) => Err(e)
         case Ok((x, rest)) => Ok((NewBlock(x), rest)))
      case Transactions =>
        (match cs.transactions.decode(buf)
         case Err(e) => Err(e)
         case Ok((x, rest)) => Ok((Transactions(x), rest)))
      case NewPooledTransactionHashes =>
        (match cs.newPooledTransactionHashes.decode(buf)
         case Err(e) => Err(e)
         case Ok((x, rest)) => Ok((NewPooledTransactionHashes(x), rest)))
      case _ => Err(Custom("invalid message id"))
  }

  /** `RequestPair::<T>::decode` for the IDs that carry a request id, given the outcome
      of its first steps (the list header and the request id): the message type that
      the ID names is decoded from what follows the request id. */
  function DecodeRequest(cs: P.PayloadCodecs, id: M.EthMessageID, prefix: Result<(U64, Bytes), DecodeError>): (r: Result<(Eth66Message, Bytes), DecodeError>)
    requires HasRequestId(id)
    ensures r.Ok? ==> prefix.Ok? && MessageId(r.value.0) == id
  {
    match prefix
    case Err(e) => Err(e)
    case Ok((requestId, rest)) =>
      match id
      case GetBlockHeaders =>
        (match cs.getBlockHeaders.decode(rest)
         case Err(e) => Err(e)
         case Ok((x, rest')) => Ok((GetBlockHeaders(M.RequestPair(requestId, x)), rest')))
      case BlockHeaders =>
        (match cs.blockHeaders.decode(rest)
         case Err(e) => Err(e)
         case Ok((x, rest')) => Ok((BlockHeaders(M.RequestPair(requestId, x)), rest')))
      case GetBlockBodies =>
        (match cs.getBlockBodies.decode(rest)
         case Err(e) => Err(e)
         case Ok((x, rest')) => Ok((GetBlockBodies(M.RequestPair(requestId, x)), rest')))
      case BlockBodies =>
        (match cs.blockBodies.decode(rest)
         case Err(e) => Err(e)
         case Ok((x, rest')) => Ok((BlockBodies(M.RequestPair(requestId, x)), rest')))
      case GetPooledTransactions =>
        (match cs.getPooledTransactions.decode(rest)
         case Err(e) => Err(e)
         case Ok((x, rest')) => Ok((GetPooledTransactions(M.RequestPair(requestId, x)), rest')))
      case PooledTransactions =>
        (match cs.pooledTransactions.decode(rest)
         case Err(e) => Err(e)
         case Ok((x, rest')) => Ok((PooledTransactions(M.RequestPair(requestId, x)), rest')))
      case GetNodeData =>
        (match cs.getNodeData.decode(rest)
         case Err(e) => Err(e)
         case Ok((x, rest')) => Ok((GetNodeData(M.RequestPair(requestId, x)), rest')))
      case NodeData =>
        (match cs.nodeData.decode(rest)
         case Err(e) => Err(e)
         case Ok((x, rest')) => Ok((NodeData(M.RequestPair(requestId, x)), rest')))
      case GetReceipts =>
        (match cs.getReceipts.decode(rest)
         case Err(e) => Err(e)
         case Ok((x, rest')) => Ok((GetReceipts(M.RequestPair(requestId, x)), rest')))
      case Receipts =>
        (match cs.receipts.decode(rest)
         case Err(e) => Err(e)
         case Ok((x, rest')) => Ok((Receipts(M.RequestPair(requestId, x)), rest')))
  }

  /** `Encodable::encode`: the payload (or request pair) alone; the ID byte is added by the
      protocol message around it. */
  function Encode(cs: P.PayloadCodecs, m: Eth66Message): Bytes
  {
    match m
    case NewBlockHashes(x) => cs.newBlockHashes.encode(x)
    case NewBlock(x) => cs.newBlock.encode(x)
    case Transactions(x) => cs.transactions.encode(x)
    case NewPooledTransactionHashes(x) => cs.newPooledTransactionHashes.encode(x)
    case GetBlockHeaders(p) => M.EncodeRequestPair(cs.getBlockHeaders, p)
    case BlockHeaders(p) => M.EncodeRequestPair(cs.blockHeaders, p)
    case GetBlockBodies(p) => M.EncodeRequestPair(cs.getBlockBodies, p)
    case BlockBodies(p) => M.EncodeRequestPair(cs.blockBodies, p)
    case GetPooledTransactions(p) => M.EncodeRequestPair(cs.getPooledTransactions, p)
    case PooledTransactions(p) => M.EncodeRequestPair(cs.pooledTransactions, p)
    case GetNodeData(p) => M.EncodeRequestPair(cs.getNodeData, p)
    case NodeData(p) => M.EncodeRequestPair(cs.nodeData, p)
    case GetReceipts(p) => M.EncodeRequestPair(cs.getReceipts, p)
    case Receipts(p) => M.EncodeRequestPair(cs.receipts, p)
  }

  /** `Encodable::length`. */
  function Length(cs: P.PayloadCodecs, m: Eth66Message): nat
  {
    match m
    case NewBlockHashes(x) => cs.newBlockHashes.length(x)
    case NewBlock(x) => cs.newBlock.length(x)
    case Transactions(x) => cs.transactions.length(x)
    case NewPooledTransactionHashes(x) => cs.newPooledTransactionHashes.length(x)
    case GetBlockHeaders(p) => M.RequestPairLength(cs.getBlockHeaders, p)
    case BlockHeaders(p) => M.RequestPairLength(cs.blockHeaders, p)
    case GetBlockBodies(p) => M.RequestPairLength(cs.getBlockBodies, p)
    case BlockBodies(p) => M.RequestPairLength(cs.blockBodies, p)
    case GetPooledTransactions(p) => M.RequestPairLength(cs.getPooledTransactions, p)
    case PooledTransactions(p) => M.RequestPairLength(cs.pooledTransactions, p)
    case GetNodeData(p) => M.RequestPairLength(cs.getNodeData, p)
    case NodeData(p) => M.RequestPairLength(cs.nodeData, p)
    case GetReceipts(p) => M.RequestPairLength(cs.getReceipts, p)
    case Receipts(p) => M.RequestPairLength(cs.receipts, p)
  }

  /** The `EthMessage` implementation of eth/66. */
  function Impl(cs: P.PayloadCodecs): M.EthMessageImpl<Eth66Message>
  {
    M.EthMessageImpl(
      MessageId,
      (id: M.EthMessageID, buf: Bytes) => Decode(cs, id, buf),
      (m: Eth66Message) => Encode(cs, m),
      (m: Eth66Message) => Length(cs, m))
  }

  /** No variant uses `Status`, and exactly the request/response variants carry a
      request id; each ID belongs to exactly one variant, so `MessageId` is
      injective on variants. */
  lemma MessageIdProperties(m: Eth66Message)
    ensures MessageId(m) != M.Status
    ensures RequestId(m).Some? <==> M.IsRequestResponse(MessageId(m))
    ensures MessageId(m) == M.NewBlockHashes <==> m.NewBlockHashes?
    ensures MessageId(m) == M.NewBlock <==> m.NewBlock?
    ensures MessageId(m) == M.Transactions <==> m.Transactions?
    ensures MessageId(m) == M.NewPooledTransactionHashes <==> m.NewPooledTransactionHashes?
    ensures MessageId(m) == M.GetBlockHeaders <==> m.GetBlockHeaders?
    ensures MessageId(m) == M.BlockHeaders <==> m.BlockHeaders?
    ensures MessageId(m) == M.GetBlockBodies <==> m.GetBlockBodies?
    ensures MessageId(m) == M.BlockBodies <==> m.BlockBodies?
    ensures MessageId(m) == M.GetPooledTransactions <==> m.GetPooledTransactions?
    ensures MessageId(m) == M.PooledTransactions <==> m.PooledTransactions?
    ensures MessageId(m) == M.GetNodeData <==> m.GetNodeData?
    ensures MessageId(m) == M.NodeData <==> m.NodeData?
    ensures MessageId(m) == M.GetReceipts <==> m.GetReceipts?
    ensures MessageId(m) == M.Receipts <==> m.Receipts?
  {
  }

  /** A decoded request/response message carries the request id written right after the
      list header of its payload; a decoded broadcast message carries none. */
  lemma DecodedRequestId(cs: P.PayloadCodecs, id: M.EthMessageID, buf: Bytes)
    requires Decode(cs, id, buf).Ok?
    ensures M.IsRequestResponse(id) <==> RequestId(Decode(cs, id, buf).value.0).Some?
    ensures M.IsRequestResponse(id) ==>
              M.DecodeRequestId(buf).Ok? && RequestId(Decode(cs, id, buf).value.0) == Some(M.DecodeRequestId(buf).value.0)
  {
    MessageIdProperties(Decode(cs, id, buf).value.0);
    if HasRequestId(id) {
      DecodeRequestCarriesId(cs, id, M.DecodeRequestId(buf));
    }
  }

  lemma DecodeRequestCarriesId(cs: P.PayloadCodecs, id: M.EthMessageID, prefix: Result<(U64, Bytes), DecodeError>)
    requires HasRequestId(id) && DecodeRequest(cs, id, prefix).Ok?
    ensures prefix.Ok? && RequestId(DecodeRequest(cs, id, prefix).value.0) == Some(prefix.value.0)
  {
  }

  // Decoding a request/response message is decoding a `RequestPair` of the payload type
  // its ID names, as `RequestPair::<T>::decode` does.

  lemma DecodeGetBlockHeaders(cs: P.PayloadCodecs, buf: Bytes)
    ensures Decode(cs, M.GetBlockHeaders, buf) == MapDecoded(M.DecodeRequestPair(cs.getBlockHeaders, buf), p => GetBlockHeaders(p))
  {
  }

  lemma DecodeBlockHeaders(cs: P.PayloadCodecs, buf: Bytes)
    ensures Decode(cs, M.BlockHeaders, buf) == MapDecoded(M.DecodeRequestPair(cs.blockHeaders, buf), p => BlockHeaders(p))
  {
  }

  lemma DecodeGetBlockBodies(cs: P.PayloadCodecs, buf: Bytes)
    ensures Decode(cs, M.GetBlockBodies, buf) == MapDecoded(M.DecodeRequestPair(cs.getBlockBodies, buf), p => GetBlockBodies(p))
  {
  }

  lemma DecodeBlockBodies(cs: P.PayloadCodecs, buf: Bytes)
    ensures Decode(cs, M.BlockBodies, buf) == MapDecoded(M.DecodeRequestPair(cs.blockBodies, buf), p => BlockBodies(p))
  {
  }

  lemma DecodeGetPooledTransactions(cs: P.PayloadCodecs, buf: Bytes)
    ensures Decode(cs, M.GetPooledTransactions, buf) == MapDecoded(M.DecodeRequestPair(cs.getPooledTransactions, buf), p => GetPooledTransactions(p))
  {
  }

  lemma DecodePooledTransactions(cs: P.PayloadCodecs, buf: Bytes)
    ensures Decode(cs, M.PooledTransactions, buf) == MapDecoded(M.DecodeRequestPair(cs.pooledTransactions, buf), p => PooledTransactions(p))
  {
  }

  lemma DecodeGetNodeData(cs: P.PayloadCodecs, buf: Bytes)
    ensures Decode(cs, M.GetNodeData, buf) == MapDecoded(M.DecodeRequestPair(cs.getNodeData, buf), p => GetNodeData(p))
  {
  }

  lemma DecodeNodeData(cs: P.PayloadCodecs, buf: Bytes)
    ensures Decode(cs, M.NodeData, buf) == MapDecoded(M.DecodeRequestPair(cs.nodeData, buf), p => NodeData(p))
  {
  }

  lemma DecodeGetReceipts(cs: P.PayloadCodecs, buf: Bytes)
    ensures Decode(cs, M.GetReceipts, buf) == MapDecoded(M.DecodeRequestPair(cs.getReceipts, buf), p => GetReceipts(p))
  {
  }

  lemma DecodeReceipts(cs: P.PayloadCodecs, buf: Bytes)
    ensures Decode(cs, M.Receipts, buf) == MapDecoded(M.DecodeRequestPair(cs.receipts, buf), p => Receipts(p))
  {
  }

  // One variant at a time: the encoding's size is `Length`, and it decodes back under
  // the variant's ID.

  lemma NewBlockHashesRoundTrip(cs: P.PayloadCodecs, x: P.NewBlockHashes, rest: Bytes)
    requires ValidCodec(cs.newBlockHashes)
    ensures Length(cs, NewBlockHashes(x)) == |Encode(cs, NewBlockHashes(x))|
    ensures Decode(cs, M.NewBlockHashes, Encode(cs, NewBlockHashes(x)) + rest) == Ok((NewBlockHashes(x), rest))
  {
    assert cs.newBlockHashes.decode(cs.newBlockHashes.encode(x) + rest) == Ok((x, rest));
  }

  lemma NewBlockRoundTrip(cs: P.PayloadCodecs, x: P.NewBlock, rest: Bytes)
    requires ValidCodec(cs.newBlock)
    ensures Length(cs, NewBlock(x)) == |Encode(cs, NewBlock(x))|
    ensures Decode(cs, M.NewBlock, Encode(cs, NewBlock(x)) + rest) == Ok((NewBlock(x), rest))
  {
    assert cs.newBlock.decode(cs.newBlock.encode(x) + rest) == Ok((x, rest));
  }

  lemma TransactionsRoundTrip(cs: P.PayloadCodecs, x: P.Transactions, rest: Bytes)
    requires ValidCodec(cs.transactions)
    ensures Length(cs, Transactions(x)) == |Encode(cs, Transactions(x))|
    ensures Decode(cs, M.Transactions, Encode(cs, Transactions(x)) + rest) == Ok((Transactions(x), rest))
  {
    assert cs.transactions.decode(cs.transactions.encode(x) + rest) == Ok((x, rest));
  }

  lemma NewPooledTransactionHashesRoundTrip(cs: P.PayloadCodecs, x: P.NewPooledTransactionHashes, rest: Bytes)
    requires ValidCodec(cs.newPooledTransactionHashes)
    ensures Length(cs, NewPooledTransactionHashes(x)) == |Encode(cs, NewPooledTransactionHashes(x))|
    ensures Decode(cs, M.NewPooledTransactionHashes, Encode(cs, NewPooledTransactionHashes(x)) + rest) == Ok((NewPooledTransactionHashes(x), rest))
  {
    assert cs.newPooledTransactionHashes.decode(cs.newPooledTransactionHashes.encode(x) + rest) == Ok((x, rest));
  }

  lemma DecodedAsGetBlockHeaders(cs: P.PayloadCodecs, buf: Bytes, p: M.RequestPair<P.GetBlockHeaders>, rest: Bytes)
    requires M.DecodeRequestPair(cs.getBlockHeaders, buf) == Ok((p, rest))
    ensures Decode(cs, M.GetBlockHeaders, buf) == Ok((GetBlockHeaders(p), rest))
  {
  }

  lemma GetBlockHeadersRoundTrip(cs: P.PayloadCodecs, p: M.RequestPair<P.GetBlockHeaders>, rest: Bytes)
    requires ValidCodec(cs.getBlockHeaders)
    ensures Length(cs, GetBlockHeaders(p)) == |Encode(cs, GetBlockHeaders(p))|
    ensures Decode(cs, M.GetBlockHeaders, Encode(cs, GetBlockHeaders(p)) + rest) == Ok((GetBlockHeaders(p), rest))
  {
    M.RequestPairRoundTripValid(cs.getBlockHeaders, p, rest);
    DecodedAsGetBlockHeaders(cs, Encode(cs, GetBlockHeaders(p)) + rest, p, rest);
  }

  lemma DecodedAsBlockHeaders(cs: P.PayloadCodecs, buf: Bytes, p: M.RequestPair<P.BlockHeaders>, rest: Bytes)
    requires M.DecodeRequestPair(cs.blockHeaders, buf) == Ok((p, rest))
    ensures Decode(cs, M.BlockHeaders, buf) == Ok((BlockHeaders(p), rest))
  {
  }

  lemma BlockHeadersRoundTrip(cs: P.PayloadCodecs, p: M.RequestPair<P.BlockHeaders>, rest: Bytes)
    requires ValidCodec(cs.blockHeaders)
    ensures Length(cs, BlockHeaders(p)) == |Encode(cs, BlockHeaders(p))|
    ensures Decode(cs, M.BlockHeaders, Encode(cs, BlockHeaders(p)) + rest) == Ok((BlockHeaders(p), rest))
  {
    M.RequestPairRoundTripValid(cs.blockHeaders, p, rest);
    DecodedAsBlockHeaders(cs, Encode(cs, BlockHeaders(p)) + rest, p, rest);
  }

  lemma DecodedAsGetBlockBodies(cs: P.PayloadCodecs, buf: Bytes, p: M.RequestPair<P.GetBlockBodies>, rest: Bytes)
    requires M.DecodeRequestPair(cs.getBlockBodies, buf) == Ok((p, rest))
    ensures Decode(cs, M.GetBlockBodies, buf) == Ok((GetBlockBodies(p), rest))
  {
  }

  lemma GetBlockBodiesRoundTrip(cs: P.PayloadCodecs, p: M.RequestPair<P.GetBlockBodies>, rest: Bytes)
    requires ValidCodec(cs.getBlockBodies)
    ensures Length(cs, GetBlockBodies(p)) == |Encode(cs, GetBlockBodies(p))|
    ensures Decode(cs, M.GetBlockBodies, Encode(cs, GetBlockBodies(p)) + rest) == Ok((GetBlockBodies(p), rest))
  {
    M.RequestPairRoundTripValid(cs.getBlockBodies, p, rest);
    DecodedAsGetBlockBodies(cs, Encode(cs, GetBlockBodies(p)) + rest, p, rest);
  }

  lemma DecodedAsBlockBodies(cs: P.PayloadCodecs, buf: Bytes, p: M.RequestPair<P.BlockBodies>, rest: Bytes)
    requires M.DecodeRequestPair(cs.blockBodies, buf) == Ok((p, rest))
    ensures Decode(cs, M.BlockBodies, buf) == Ok((BlockBodies(p), rest))
  {
  }

  lemma BlockBodiesRoundTrip(cs: P.PayloadCodecs, p: M.RequestPair<P.BlockBodies>, rest: Bytes)
    requires ValidCodec(cs.blockBodies)
    ensures Length(cs, BlockBodies(p)) == |Encode(cs, BlockBodies(p))|
    ensures Decode(cs, M.BlockBodies, Encode(cs, BlockBodies(p)) + rest) == Ok((BlockBodies(p), rest))
  {
    M.RequestPairRoundTripValid(cs.blockBodies, p, rest);
    DecodedAsBlockBodies(cs, Encode(cs, BlockBodies(p)) + rest, p, rest);
  }

  lemma DecodedAsGetPooledTransactions(cs: P.PayloadCodecs, buf: Bytes, p: M.RequestPair<P.GetPooledTransactions>, rest: Bytes)
    requires M.DecodeRequestPair(cs.getPooledTransactions, buf) == Ok((p, rest))
    ensures Decode(cs, M.GetPooledTransactions, buf) == Ok((GetPooledTransactions(p), rest))
  {
  }

  lemma GetPooledTransactionsRoundTrip(cs: P.PayloadCodecs, p: M.RequestPair<P.GetPooledTransactions>, rest: Bytes)
    requires ValidCodec(cs.getPooledTransactions)
    ensures Length(cs, GetPooledTransactions(p)) == |Encode(cs, GetPooledTransactions(p))|
    ensures Decode(cs, M.GetPooledTransactions, Encode(cs, GetPooledTransactions(p)) + rest) == Ok((GetPooledTransactions(p), rest))
  {
    M.RequestPairRoundTripValid(cs.getPooledTransactions, p, rest);
    DecodedAsGetPooledTransactions(cs, Encode(cs, GetPooledTransactions(p)) + rest, p, rest);
  }

  lemma DecodedAsPooledTransactions(cs: P.PayloadCodecs, buf: Bytes, p: M.RequestPair<P.PooledTransactions>, rest: Bytes)
    requires M.DecodeRequestPair(cs.pooledTransactions, buf) == Ok((p, rest))
    ensures Decode(cs, M.PooledTransactions, buf) == Ok((PooledTransactions(p), rest))
  {
  }

  lemma PooledTransactionsRoundTrip(cs: P.PayloadCodecs, p: M.RequestPair<P.PooledTransactions>, rest: Bytes)
    requires ValidCodec(cs.pooledTransactions)
    ensures Length(cs, PooledTransactions(p)) == |Encode(cs, PooledTransactions(p))|
    ensures Decode(cs, M.PooledTransactions, Encode(cs, PooledTransactions(p)) + rest) == Ok((PooledTransactions(p), rest))
  {
    M.RequestPairRoundTripValid(cs.pooledTransactions, p, rest);
    DecodedAsPooledTransactions(cs, Encode(cs, PooledTransactions(p)) + rest, p, rest);
  }

  lemma DecodedAsGetNodeData(cs: P.PayloadCodecs, buf: Bytes, p: M.RequestPair<P.GetNodeData>, rest: Bytes)
    requires M.DecodeRequestPair(cs.getNodeData, buf) == Ok((p, rest))
    ensures Decode(cs, M.GetNodeData, buf) == Ok((GetNodeData(p), rest))
  {
  }

  lemma GetNodeDataRoundTrip(cs: P.PayloadCodecs, p: M.RequestPair<P.GetNodeData>, rest: Bytes)
    requires ValidCodec(cs.getNodeData)
    ensures Length(cs, GetNodeData(p)) == |Encode(cs, GetNodeData(p))|
    ensures Decode(cs, M.GetNodeData, Encode(cs, GetNodeData(p)) + rest) == Ok((GetNodeData(p), rest))
  {
    M.RequestPairRoundTripValid(cs.getNodeData, p, rest);
    DecodedAsGetNodeData(cs, Encode(cs, GetNodeData(p)) + rest, p, rest);
  }

  lemma DecodedAsNodeData(cs: P.PayloadCodecs, buf: Bytes, p: M.RequestPair<P.NodeData>, rest: Bytes)
    requires M.DecodeRequestPair(cs.nodeData, buf) == Ok((p, rest))
    ensures Decode(cs, M.NodeData, buf) == Ok((NodeData(p), rest))
  {
  }

  lemma NodeDataRoundTrip(cs: P.PayloadCodecs, p: M.RequestPair<P.NodeData>, rest: Bytes)
    requires ValidCodec(cs.nodeData)
    ensures Length(cs, NodeData(p)) == |Encode(cs, NodeData(p))|
    ensures Decode(cs, M.NodeData, Encode(cs, NodeData(p)) + rest) == Ok((NodeData(p), rest))
  {
    M.RequestPairRoundTripValid(cs.nodeData, p, rest);
    DecodedAsNodeData(cs, Encode(cs, NodeData(p)) + rest, p, rest);
  }

  lemma DecodedAsGetReceipts(cs: P.PayloadCodecs, buf: Bytes, p: M.RequestPair<P.GetReceipts>, rest: Bytes)
    requires M.DecodeRequestPair(cs.getReceipts, buf) == Ok((p, rest))
    ensures Decode(cs, M.GetReceipts, buf) == Ok((GetReceipts(p), rest))
  {
  }

  lemma GetReceiptsRoundTrip(cs: P.PayloadCodecs, p: M.RequestPair<P.GetReceipts>, rest: Bytes)
    requires ValidCodec(cs.getReceipts)
    ensures Length(cs, GetReceipts(p)) == |Encode(cs, GetReceipts(p))|
    ensures Decode(cs, M.GetReceipts, Encode(cs, GetReceipts(p)) + rest) == Ok((GetReceipts(p), rest))
  {
    M.RequestPairRoundTripValid(cs.getReceipts, p, rest);
    DecodedAsGetReceipts(cs, Encode(cs, GetReceipts(p)) + rest, p, rest);
  }

  lemma DecodedAsReceipts(cs: P.PayloadCodecs, buf: Bytes, p: M.RequestPair<P.Receipts>, rest: Bytes)
    requires M.DecodeRequestPair(cs.receipts, buf) == Ok((p, rest))
    ensures Decode(cs, M.Receipts, buf) == Ok((Receipts(p), rest))
  {
  }

  lemma ReceiptsRoundTrip(cs: P.PayloadCodecs, p: M.RequestPair<P.Receipts>, rest: Bytes)
    requires ValidCodec(cs.receipts)
    ensures Length(cs, Receipts(p)) == |Encode(cs, Receipts(p))|
    ensures Decode(cs, M.Receipts, Encode(cs, Receipts(p)) + rest) == Ok((Receipts(p), rest))
  {
    M.RequestPairRoundTripValid(cs.receipts, p, rest);
    DecodedAsReceipts(cs, Encode(cs, Receipts(p)) + rest, p, rest);
  }

  /** Every eth/66 message decodes back from its encoding under its own ID, and
      `Length` is the size of that encoding. */
  lemma RoundTrip(cs: P.PayloadCodecs, m: Eth66Message, rest: Bytes)
    requires P.ValidCodecs(cs)
    ensures Length(cs, m) == |Encode(cs, m)|
    ensures Decode(cs, MessageId(m), Encode(cs, m) + rest) == Ok((m, rest))
  {
    match m
    case NewBlockHashes(x) => NewBlockHashesRoundTrip(cs, x, rest);
    case NewBlock(x) => NewBlockRoundTrip(cs, x, rest);
    case Transactions(x) => TransactionsRoundTrip(cs, x, rest);
    case NewPooledTransactionHashes(x) => NewPooledTransactionHashesRoundTrip(cs, x, rest);
    case GetBlockHeaders(p) => GetBlockHeadersRoundTrip(cs, p, rest);
    case BlockHeaders(p) => BlockHeadersRoundTrip(cs, p, rest);
    case GetBlockBodies(p) => GetBlockBodiesRoundTrip(cs, p, rest);
    case BlockBodies(p) => BlockBodiesRoundTrip(cs, p, rest);
    case GetPooledTransactions(p) => GetPooledTransactionsRoundTrip(cs, p, rest);
    case PooledTransactions(p) => PooledTransactionsRoundTrip(cs, p, rest);
    case GetNodeData(p) => GetNodeDataRoundTrip(cs, p, rest);
    case NodeData(p) => NodeDataRoundTrip(cs, p, rest);
    case GetReceipts(p) => GetReceiptsRoundTrip(cs, p, rest);
    case Receipts(p) => ReceiptsRoundTrip(cs, p, rest);
  }

  /** The eth/66 implementation satisfies the `EthMessage` round-trip contract. */
  lemma ImplRoundTrips(cs: P.PayloadCodecs)
    requires P.ValidCodecs(cs)
    ensures M.ImplRoundTrips(Impl(cs))
  {
    forall m: Eth66Message, rest: Bytes
      ensures Impl(cs).decode(Impl(cs).messageId(m), Impl(cs).encode(m) + rest) == Ok((m, rest))
    {
      RoundTrip(cs, m, rest);
    }
  }

  /** An eth/66 message framed as a protocol message (ID byte and payload) decodes
      back. */
  lemma ProtocolRoundTrip(cs: P.PayloadCodecs, m: Eth66Message, rest: Bytes)
    requires P.ValidCodecs(cs)
    ensures M.DecodeProtocolMessage(Impl(cs), M.EncodeProtocolMessage(Impl(cs), M.FromMessage(Impl(cs), m)) + rest)
            == Ok((M.ProtocolMessage(MessageId(m), m), rest))
  {
    RoundTrip(cs, m, rest);
    M.ProtocolRoundTrip(Impl(cs), m, rest);
  }
}
