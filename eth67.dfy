/**
 * The message set of eth/67: that of eth/66 without `GetNodeData` and `NodeData`, whose
 * IDs are rejected like `Status`.
 */
module Eth67 {
  import opened Common
  import opened Rlp
  import P = Payloads
  import M = Message
  import E66 = Eth66

  datatype Eth67Message =
    | NewBlockHashes(hashes: P.NewBlockHashes)
    | NewBlock(block: P.NewBlock)
    | Transactions(transactions: P.Transactions)
    | NewPooledTransactionHashes(pooledHashes: P.NewPooledTransactionHashes)
    | GetBlockHeaders(getHeaders: M.RequestPair<P.GetBlockHeaders>)
    | BlockHeaders(headers: M.RequestPair<P.BlockHeaders>)
    | GetBlockBodies(getBodies: M.RequestPair<P.GetBlockBodies>)
    | BlockBodies(bodies: M.RequestPair<P.BlockBodies>)
    | GetPooledTransactions(getPooled: M.RequestPair<P.GetPooledTransactions>)
    | PooledTransactions(pooled: M.RequestPair<P.PooledTransactions>)
    | GetReceipts(getReceipts: M.RequestPair<P.GetReceipts>)
    | Receipts(receipts: M.RequestPair<P.Receipts>)

  /** The IDs whose messages carry a request id in this version: the request/response
      IDs except the node-data pair, which this version no longer has. */
  predicate HasRequestId(id: M.EthMessageID) {
    M.IsRequestResponse(id) && id != M.GetNodeData && id != M.NodeData
  }

  /** `EthMessage::message_id`. */
  function MessageId(m: Eth67Message): M.EthMessageID
  {
    match m
    case NewBlockHashes(_) => M.NewBlockHashes
    case NewBlock(_) => M.NewBlock
    case Transactions(_) => M.Transactions
    case NewPooledTransactionHashes(_) => M.NewPooledTransactionHashes
    case GetBlockHeaders(_) => M.GetBlockHeaders
    case BlockHeaders(_) => M.BlockHeaders
    case GetBlockBodies(_) => M.GetBlockBodies
    case BlockBodies(_) => M.BlockBodies
    case GetPooledTransactions(_) => M.GetPooledTransactions
    case PooledTransactions(_) => M.PooledTransactions
    case GetReceipts(_) => M.GetReceipts
    case Receipts(_) => M.Receipts
  }

  /** The request id of a request/response message; broadcasts have none. */
  function RequestId(m: Eth67Message): Option<U64>
  {
    match m
    case GetBlockHeaders(p) => Some(p.requestId)
    case BlockHeaders(p) => Some(p.requestId)
    case GetBlockBodies(p) => Some(p.requestId)
    case BlockBodies(p) => Some(p.requestId)
    case GetPooledTransactions(p) => Some(p.requestId)
    case PooledTransactions(p) => Some(p.requestId)
    case GetReceipts(p) => Some(p.requestId)
    case Receipts(p) => Some(p.requestId)
    case _ => None
  }

  /** `EthMessage::decode`: the payload type is chosen by the ID, and a decoded message
      has the ID it was decoded under; `Status`, `GetNodeData` and `NodeData` are not eth/67
      messages and are rejected.
      Errors of the payload decoders are returned unchanged. */
  function Decode(cs: P.PayloadCodecs, id: M.EthMessageID, buf: Bytes): (r: Result<(Eth67Message, Bytes), DecodeError>)
    ensures r.Ok? ==> MessageId(r.value.0) == id
    ensures id == M.Status || id == M.GetNodeData || id == M.NodeData ==> r == Err(Custom("invalid message id"))
  {
    if HasRequestId(id) then DecodeRequest(cs, id, M.DecodeRequestId(buf))
    else
      match id
      case NewBlockHashes =>
        (match cs.newBlockHashes.decode(buf)
         case Err(e) => Err(e)
         case Ok((x, rest)) => Ok((NewBlockHashes(x), rest)))
      case NewBlock =>
        (match cs.newBlock.decode(buf)
         case Err(e) => Err(e)
         case Ok((x, rest)) => Ok((NewBlock(x), rest)))
      case Transactions =>
        (match cs.transactions.decode(buf)
         case Err(e) => Err(e)
         case Ok((x, rest)) => Ok((Transactions(x), rest)))
      case NewPooledTransactionHashes =>
        (match cs.newPooledTransactionHashes.decode(buf)
         case Err(e) => Err(e)
         case Ok((x, rest)) => Ok((NewPooledTransactionHashes(x), rest)))
      case _ => Err(Custom("invalid message id"))
  }

  /** `RequestPair::<T>::decode` for the IDs that carry a request id, given the outcome
      of its first steps (the list header and the request id): the message type that
      the ID names is decoded from what follows the request id. */
  function DecodeRequest(cs: P.PayloadCodecs, id: M.EthMessageID, prefix: Result<(U64, Bytes), DecodeError>): (r: Result<(Eth67Message, Bytes), DecodeError>)
    requires HasRequestId(id)
    ensures r.Ok? ==> prefix.Ok? && MessageId(r.value.0) == id
  {
    match prefix
    case Err(e) => Err(e)
    case Ok((requestId, rest)) =>
      match id
      case GetBlockHeaders =>
        (match cs.getBlockHeaders.decode(rest)
         case Err(e) => Err(e)
         case Ok((x, rest')) => Ok((GetBlockHeaders(M.RequestPair(requestId, x)), rest')))
      case BlockHeaders =>
        (match cs.blockHeaders.decode(rest)
         case Err(e) => Err(e)
         case Ok((x, rest')) => Ok((BlockHeaders(M.RequestPair(requestId, x)), rest')))
      case GetBlockBodies =>
        (match cs.getBlockBodies.decode(rest)
         case Err(e) => Err(e)
         case Ok((x, rest')) => Ok((GetBlockBodies(M.RequestPair(requestId, x)), rest')))
      case BlockBodies =>
        (match cs.blockBodies.decode(rest)
         case Err(e) => Err(e)
         case Ok((x, rest')) => Ok((BlockBodies(M.RequestPair(requestId, x)), rest')))
      case GetPooledTransactions =>
        (match cs.getPooledTransactions.decode(rest)
         case Err(e) => Err(e)
         case Ok((x, rest')) => Ok((GetPooledTransactions(M.RequestPair(requestId, x)), rest')))
      case PooledTransactions =>
        (match cs.pooledTransactions.decode(rest)
         case Err(e) => Err(e)
         case Ok((x, rest')) => Ok((PooledTransactions(M.RequestPair(requestId, x)), rest')))
      case GetReceipts =>
        (match cs.getReceipts.decode(rest)
         case Err(e) => Err(e)
         case Ok((x, rest')) => Ok((GetReceipts(M.RequestPair(requestId, x)), rest')))
      case Receipts =>
        (match cs.receipts.decode(rest)
         case Err(e) => Err(e)
         case Ok((x, rest')) => Ok((Receipts(M.RequestPair(requestId, x)), rest')))
  }

  /** `Encodable::encode`: the payload (or request pair) alone; the ID byte is added by the
      protocol message around it. */
  function Encode(cs: P.PayloadCodecs, m: Eth67Message): Bytes
  {
    match m
    case NewBlockHashes(x) => cs.newBlockHashes.encode(x)
    case NewBlock(x) => cs.newBlock.encode(x)
    case Transactions(x) => cs.transactions.encode(x)
    case NewPooledTransactionHashes(x) => cs.newPooledTransactionHashes.encode(x)
    case GetBlockHeaders(p) => M.EncodeRequestPair(cs.getBlockHeaders, p)
    case BlockHeaders(p) => M.EncodeRequestPair(cs.blockHeaders, p)
    case GetBlockBodies(p) => M.EncodeRequestPair(cs.getBlockBodies, p)
    case BlockBodies(p) => M.EncodeRequestPair(cs.blockBodies, p)
    case GetPooledTransactions(p) => M.EncodeRequestPair(cs.getPooledTransactions, p)
    case PooledTransactions(p) => M.EncodeRequestPair(cs.pooledTransactions, p)
    case GetReceipts(p) => M.EncodeRequestPair(cs.getReceipts, p)
    case Receipts(p) => M.EncodeRequestPair(cs.receipts, p)
  }

  /** `Encodable::length`. */
  function Length(cs: P.PayloadCodecs, m: Eth67Message): nat
  {
    match m
    case NewBlockHashes(x) => cs.newBlockHashes.length(x)
    case NewBlock(x) => cs.newBlock.length(x)
    case Transactions(x) => cs.transactions.length(x)
    case NewPooledTransactionHashes(x) => cs.newPooledTransactionHashes.length(x)
    case GetBlockHeaders(p) => M.RequestPairLength(cs.getBlockHeaders, p)
    case BlockHeaders(p) => M.RequestPairLength(cs.blockHeaders, p)
    case GetBlockBodies(p) => M.RequestPairLength(cs.getBlockBodies, p)
    case BlockBodies(p) => M.RequestPairLength(cs.blockBodies, p)
    case GetPooledTransactions(p) => M.RequestPairLength(cs.getPooledTransactions, p)
    case PooledTransactions(p) => M.RequestPairLength(cs.pooledTransactions, p)
    case GetReceipts(p) => M.RequestPairLength(cs.getReceipts, p)
    case Receipts(p) => M.RequestPairLength(cs.receipts, p)
  }

  /** The `EthMessage` implementation of eth/67. */
  function Impl(cs: P.PayloadCodecs): M.EthMessageImpl<Eth67Message>
  {
    M.EthMessageImpl(
      MessageId,
      (id: M.EthMessageID, buf: Bytes) => Decode(cs, id, buf),
      (m: Eth67Message) => Encode(cs, m),
      (m: Eth67Message) => Length(cs, m))
  }

  /** No variant uses `Status`, `GetNodeData` or `NodeData`, and exactly the
      request/response variants carry a request id; each ID belongs to exactly one
      variant, so `MessageId` is injective on variants. */
  lemma MessageIdProperties(m: Eth67Message)
    ensures MessageId(m) != M.Status && MessageId(m) != M.GetNodeData && MessageId(m) != M.NodeData
    ensures RequestId(m).Some? <==> M.IsRequestResponse(MessageId(m))
    ensures MessageId(m) == M.NewBlockHashes <==> m.NewBlockHashes?
    ensures MessageId(m) == M.NewBlock <==> m.NewBlock?
    ensures MessageId(m) == M.Transactions <==> m.Transactions?
    ensures MessageId(m) == M.NewPooledTransactionHashes <==> m.NewPooledTransactionHashes?
    ensures MessageId(m) == M.GetBlockHeaders <==> m.GetBlockHeaders?
    ensures MessageId(m) == M.BlockHeaders <==> m.BlockHeaders?
    ensures MessageId(m) == M.GetBlockBodies <==> m.GetBlockBodies?
    ensures MessageId(m) == M.BlockBodies <==> m.BlockBodies?
    ensures MessageId(m) == M.GetPooledTransactions <==> m.GetPooledTransactions?
    ensures MessageId(m) == M.PooledTransactions <==> m.PooledTransactions?
    ensures MessageId(m) == M.GetReceipts <==> m.GetReceipts?
    ensures MessageId(m) == M.Receipts <==> m.Receipts?
  {
  }

  /** A decoded request/response message carries the request id written right after the
      list header of its payload; a decoded broadcast message carries none. */
  lemma DecodedRequestId(cs: P.PayloadCodecs, id: M.EthMessageID, buf: Bytes)
    requires Decode(cs, id, buf).Ok?
    ensures M.IsRequestResponse(id) <==> RequestId(Decode(cs, id, buf).value.0).Some?
    ensures M.IsRequestResponse(id) ==>
              M.DecodeRequestId(buf).Ok? && RequestId(Decode(cs, id, buf).value.0) == Some(M.DecodeRequestId(buf).value.0)
  {
    MessageIdProperties(Decode(cs, id, buf).value.0);
    if HasRequestId(id) {
      DecodeRequestCarriesId(cs, id, M.DecodeRequestId(buf));
    }
  }

  lemma DecodeRequestCarriesId(cs: P.PayloadCodecs, id: M.EthMessageID, prefix: Result<(U64, Bytes), DecodeError>)
    requires HasRequestId(id) && DecodeRequest(cs, id, prefix).Ok?
    ensures prefix.Ok? && RequestId(DecodeRequest(cs, id, prefix).value.0) == Some(prefix.value.0)
  {
  }

  // ---------------------------------------------------------------- eth/67 and eth/66

  /** The eth/66 message with the same variant and contents. */
  function ToEth66(m: Eth67Message): E66.Eth66Message
  {
    match m
    case NewBlockHashes(x) => E66.NewBlockHashes(x)
    case NewBlock(x) => E66.NewBlock(x)
    case Transactions(x) => E66.Transactions(x)
    case NewPooledTransactionHashes(x) => E66.NewPooledTransactionHashes(x)
    case GetBlockHeaders(x) => E66.GetBlockHeaders(x)
    case BlockHeaders(x) => E66.BlockHeaders(x)
    case GetBlockBodies(x) => E66.GetBlockBodies(x)
    case BlockBodies(x) => E66.BlockBodies(x)
    case GetPooledTransactions(x) => E66.GetPooledTransactions(x)
    case PooledTransactions(x) => E66.PooledTransactions(x)
    case GetReceipts(x) => E66.GetReceipts(x)
    case Receipts(x) => E66.Receipts(x)
  }

  /** The eth/67 message with the same variant and contents, if eth/67 has the variant. */
  function FromEth66(m: E66.Eth66Message): Option<Eth67Message>
  {
    match m
    case NewBlockHashes(x) => Some(NewBlockHashes(x))
    case NewBlock(x) => Some(NewBlock(x))
    case Transactions(x) => Some(Transactions(x))
    case NewPooledTransactionHashes(x) => Some(NewPooledTransactionHashes(x))
    case GetBlockHeaders(x) => Some(GetBlockHeaders(x))
    case BlockHeaders(x) => Some(BlockHeaders(x))
    case GetBlockBodies(x) => Some(GetBlockBodies(x))
    case BlockBodies(x) => Some(BlockBodies(x))
    case GetPooledTransactions(x) => Some(GetPooledTransactions(x))
    case PooledTransactions(x) => Some(PooledTransactions(x))
    case GetReceipts(x) => Some(GetReceipts(x))
    case Receipts(x) => Some(Receipts(x))
    case _ => None
  }

  /** eth/67 embeds into eth/66: every eth/67 message has its eth/66 counterpart, and
      the eth/66 messages without an eth/67 counterpart are exactly the node-data pair. */
  lemma Eth66Embedding(m: Eth67Message, m66: E66.Eth66Message)
    ensures FromEth66(ToEth66(m)) == Some(m)
    ensures FromEth66(m66).Some? ==> ToEth66(FromEth66(m66).value) == m66
    ensures FromEth66(m66).None? <==> m66.GetNodeData? || m66.NodeData?
  {
  }

  /** Corresponding messages have the same ID, encoding and length. */
  lemma EncodesAsEth66(cs: P.PayloadCodecs, m: Eth67Message)
    ensures MessageId(m) == E66.MessageId(ToEth66(m))
    ensures Encode(cs, m) == E66.Encode(cs, ToEth66(m))
    ensures Length(cs, m) == E66.Length(cs, ToEth66(m))
  {
  }

  /** Under every ID but the node-data pair, eth/67 decodes every input as eth/66 does:
      the same errors, and corresponding messages with the same remaining input. In
      particular a request/response ID decodes a `RequestPair` of its payload type. */
  lemma DecodesAsEth66(cs: P.PayloadCodecs, id: M.EthMessageID, buf: Bytes)
    requires id != M.GetNodeData && id != M.NodeData
    ensures MapDecoded(Decode(cs, id, buf), ToEth66) == E66.Decode(cs, id, buf)
  {
    if HasRequestId(id) {
      DecodeRequestAsEth66(cs, id, M.DecodeRequestId(buf));
    }
  }

  lemma DecodeRequestAsEth66(cs: P.PayloadCodecs, id: M.EthMessageID, prefix: Result<(U64, Bytes), DecodeError>)
    requires HasRequestId(id)
    ensures MapDecoded(DecodeRequest(cs, id, prefix), ToEth66) == E66.DecodeRequest(cs, id, prefix)
  {
  }

  /** Every eth/67 message decodes back from its encoding under its own ID, and `Length`
      is the size of that encoding: the eth/66 round trip carried over. */
  lemma RoundTrip(cs: P.PayloadCodecs, m: Eth67Message, rest: Bytes)
    requires P.ValidCodecs(cs)
    ensures Length(cs, m) == |Encode(cs, m)|
    ensures Decode(cs, MessageId(m), Encode(cs, m) + rest) == Ok((m, rest))
  {
    EncodesAsEth66(cs, m);
    MessageIdProperties(m);
    E66.RoundTrip(cs, ToEth66(m), rest);
    var r := Decode(cs, MessageId(m), Encode(cs, m) + rest);
    DecodesAsEth66(cs, MessageId(m), Encode(cs, m) + rest);
    Eth66Embedding(r.value.0, ToEth66(m));
    Eth66Embedding(m, ToEth66(m));
  }

  /** The eth/67 implementation satisfies the `EthMessage` round-trip contract. */
  lemma ImplRoundTrips(cs: P.PayloadCodecs)
    requires P.ValidCodecs(cs)
    ensures M.ImplRoundTrips(Impl(cs))
  {
    forall m: Eth67Message, rest: Bytes
      ensures Impl(cs).decode(Impl(cs).messageId(m), Impl(cs).encode(m) + rest) == Ok((m, rest))
    {
      RoundTrip(cs, m, rest);
    }
  }

  /** An eth/67 message framed as a protocol message (ID byte and payload) decodes
      back. */
  lemma ProtocolRoundTrip(cs: P.PayloadCodecs, m: Eth67Message, rest: Bytes)
    requires P.ValidCodecs(cs)
    ensures M.DecodeProtocolMessage(Impl(cs), M.EncodeProtocolMessage(Impl(cs), M.FromMessage(Impl(cs), m)) + rest)
            == Ok((M.ProtocolMessage(MessageId(m), m), rest))
  {
    RoundTrip(cs, m, rest);
    M.ProtocolRoundTrip(Impl(cs), m, rest);
  }
}
