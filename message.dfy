/**
 * The `eth` wire protocol's message framing: the one-byte message ID, a protocol message
 * (ID byte followed by the payload), the status and broadcast messages, and the
 * request/response pair that eth/66 introduced (EIP-2481) to carry a request id.
 */
module Message {
  import opened Common
  import opened Rlp
  import P = Payloads

  // ---------------------------------------------------------------- message IDs

  /** The message IDs of the devp2p Ethereum Wire Protocol. */
  datatype EthMessageID =
    | Status
    | NewBlockHashes
    | Transactions
    | GetBlockHeaders
    | BlockHeaders
    | GetBlockBodies
    | BlockBodies
    | NewBlock
    | NewPooledTransactionHashes
    | GetPooledTransactions
    | PooledTransactions
    | GetNodeData
    | NodeData
    | GetReceipts
    | Receipts

  /** The IDs of request/response messages, which carry a request id from eth/66 on. */
  predicate IsRequestResponse(id: EthMessageID) {
    match id
    case Status | NewBlockHashes | NewBlock | Transactions | NewPooledTransactionHashes => false
    case _ => true
  }

  /** The discriminant of each ID (`#[repr(u8)]`). */
  function IdByte(id: EthMessageID): Byte
  {
    match id
    case Status => 0x00
    case NewBlockHashes => 0x01
    case Transactions => 0x02
    case GetBlockHeaders => 0x03
    case BlockHeaders => 0x04
    case GetBlockBodies => 0x05
    case BlockBodies => 0x06
    case NewBlock => 0x07
    case NewPooledTransactionHashes => 0x08
    case GetPooledTransactions => 0x09
    case PooledTransactions => 0x0a
    case GetNodeData => 0x0d
    case NodeData => 0x0e
    case GetReceipts => 0x0f
    case Receipts => 0x10
  }

  /** The byte match of `EthMessageID::decode`. */
  function IdOfByte(b: Byte): Option<EthMessageID>
  {
    match b
    case 0x00 => Some(Status)
    case 0x01 => Some(NewBlockHashes)
    case 0x02 => Some(Transactions)
    case 0x03 => Some(GetBlockHeaders)
    case 0x04 => Some(BlockHeaders)
    case 0x05 => Some(GetBlockBodies)
    case 0x06 => Some(BlockBodies)
    case 0x07 => Some(NewBlock)
    case 0x08 => Some(NewPooledTransactionHashes)
    case 0x09 => Some(GetPooledTransactions)
    case 0x0a => Some(PooledTransactions)
    case 0x0d => Some(GetNodeData)
    case 0x0e => Some(NodeData)
    case 0x0f => Some(GetReceipts)
    case 0x10 => Some(Receipts)
    case _ => None
  }

  /** `Encodable for EthMessageID`: the single discriminant byte. */
  function EncodeId(id: EthMessageID): Bytes
  {
    [IdByte(id)]
  }

  /** `Encodable::length` for an ID: always one byte, the size of its encoding. */
  function IdLength(id: EthMessageID): (n: nat)
    ensures n == |EncodeId(id)| == 1
  {
    1
  }

  /** `Decodable for EthMessageID`: the first byte names the ID and is consumed only when
      it names one. */
  function DecodeId(buf: Bytes): (r: Result<(EthMessageID, Bytes), DecodeError>)
    ensures r.Ok? ==> buf != [] && EncodeId(r.value.0) == buf[..1] && r.value.1 == buf[1..]
  {
    if buf == [] then Err(InputTooShort)
    else
      match IdOfByte(buf[0])
      case None => Err(Custom("Invalid message ID"))
      case Some(id) => Ok((id, buf[1..]))
  }

  /** `TryFrom<usize> for EthMessageID`. */
  function IdTryFrom(value: U64): Result<EthMessageID, string>
  {
    match value
    case 0x00 => Ok(Status)
    case 0x01 => Ok(NewBlockHashes)
    case 0x02 => Ok(Transactions)
    case 0x03 => Ok(GetBlockHeaders)
    case 0x04 => Ok(BlockHeaders)
    case 0x05 => Ok(GetBlockBodies)
    case 0x06 => Ok(BlockBodies)
    case 0x07 => Ok(NewBlock)
    case 0x08 => Ok(NewPooledTransactionHashes)
    case 0x09 => Ok(GetPooledTransactions)
    case 0x0a => Ok(PooledTransactions)
    case 0x0d => Ok(GetNodeData)
    case 0x0e => Ok(NodeData)
    case 0x0f => Ok(GetReceipts)
    case 0x10 => Ok(Receipts)
    case _ => Err("Invalid message ID")
  }

  /** Every ID decodes from its one-byte encoding, consuming exactly that byte. */
  lemma IdRoundTrip(id: EthMessageID, rest: Bytes)
    ensures DecodeId(EncodeId(id) + rest) == Ok((id, rest))
  {
    var buf := EncodeId(id) + rest;
    assert buf[0] == IdByte(id);
    assert buf[1..] == rest;
  }

  /** The failures of ID decoding: an empty buffer is too short, and the unassigned bytes
      0x0b, 0x0c and everything above 0x10 are rejected. */
  lemma IdDecodeFailures(buf: Bytes)
    ensures buf == [] ==> DecodeId(buf) == Err(InputTooShort)
    ensures buf != [] && (buf[0] == 0x0b || buf[0] == 0x0c || buf[0] > 0x10) ==>
              DecodeId(buf) == Err(Custom("Invalid message ID"))
    ensures buf != [] && !(buf[0] == 0x0b || buf[0] == 0x0c || buf[0] > 0x10) ==>
              DecodeId(buf).Ok?
  {
  }

  /** `TryFrom<usize>` accepts exactly the values the byte decoder accepts, and maps them
      to the same IDs. */
  lemma IdTryFromAgreesWithDecode(value: U64)
    ensures IdTryFrom(value).Ok? <==> value < 256 && DecodeId([value]).Ok?
    ensures IdTryFrom(value).Ok? ==> DecodeId([value]) == Ok((IdTryFrom(value).value, []))
    ensures IdTryFrom(value).Err? ==> IdTryFrom(value).error == "Invalid message ID"
  {
    if value < 256 {
      var b: Byte := value;
      assert [b][0] == b && [b][1..] == [];
    }
  }

  /** The conversions are inverse to the discriminant. */
  lemma IdTryFromInverse(id: EthMessageID)
    ensures IdTryFrom(IdByte(id)) == Ok(id)
  {
  }

  // ---------------------------------------------------------------- the EthMessage trait

  /** An implementation of the `EthMessage` trait together with its `Encodable` part. */
  datatype EthMessageImpl<!T> = EthMessageImpl(
    messageId: T -> EthMessageID,
    decode: (EthMessageID, Bytes) -> Result<(T, Bytes), DecodeError>,
    encode: T -> Bytes,
    length: T -> nat)

  /** A message type whose encoding decodes back under its own ID. */
  ghost predicate ImplRoundTrips<T(!new)>(impl: EthMessageImpl<T>) {
    forall m: T, rest: Bytes {:trigger impl.decode(impl.messageId(m), impl.encode(m) + rest)} ::
      impl.decode(impl.messageId(m), impl.encode(m) + rest) == Ok((m, rest))
  }

  // ---------------------------------------------------------------- protocol messages

  /** An `eth` protocol message: a message ID and its payload. */
  datatype ProtocolMessage<T> = ProtocolMessage(messageType: EthMessageID, message: T)

  /** `From<T> for ProtocolMessage<T>`: the ID is taken from the message. */
  function FromMessage<T>(impl: EthMessageImpl<T>, m: T): (pm: ProtocolMessage<T>)
    ensures pm.message == m && pm.messageType == impl.messageId(m)
  {
    ProtocolMessage(impl.messageId(m), m)
  }

  /** The protocol message encoding: the ID byte, then the payload encoding. */
  function EncodeProtocolMessage<T>(impl: EthMessageImpl<T>, pm: ProtocolMessage<T>): Bytes
  {
    EncodeId(pm.messageType) + impl.encode(pm.message)
  }

  /** `Encodable::length` for a protocol message. */
  function ProtocolMessageLength<T>(impl: EthMessageImpl<T>, pm: ProtocolMessage<T>): (n: nat)
    ensures impl.length(pm.message) == |impl.encode(pm.message)| ==>
              n == |EncodeProtocolMessage(impl, pm)|
  {
    IdLength(pm.messageType) + impl.length(pm.message)
  }

  /** `ProtocolMessage::decode`: the ID first, then the payload decoded under that ID. */
  function DecodeProtocolMessage<T>(impl: EthMessageImpl<T>, buf: Bytes): Result<(ProtocolMessage<T>, Bytes), DecodeError>
  {
    match DecodeId(buf)
    case Err(e) => Err(e)
    case Ok((id, rest)) =>
      match impl.decode(id, rest)
      case Err(e) => Err(e)
      case Ok((m, rest')) => Ok((ProtocolMessage(id, m), rest'))
  }

  /** Decoding a protocol message returns the error of the first step that fails,
      unchanged; on success the message is what the payload decoder produced for the
      ID found in the first byte. */
  lemma ProtocolDecodeSteps<T>(impl: EthMessageImpl<T>, buf: Bytes)
    ensures DecodeId(buf).Err? ==> DecodeProtocolMessage(impl, buf) == Err(DecodeId(buf).error)
    ensures DecodeId(buf).Ok? ==>
              var id := IdOfByte(buf[0]).value;
              && DecodeId(buf).value.0 == id
              && DecodeProtocolMessage(impl, buf) ==
                   MapDecoded(impl.decode(id, buf[1..]), (m: T) => ProtocolMessage(id, m))
  {
  }

  /** A message converted with `From` and encoded decodes back, given a payload type
      whose own encoding decodes back under its ID. */
  lemma ProtocolRoundTrip<T>(impl: EthMessageImpl<T>, m: T, rest: Bytes)
    requires impl.decode(impl.messageId(m), impl.encode(m) + rest) == Ok((m, rest))
    ensures DecodeProtocolMessage(impl, EncodeProtocolMessage(impl, FromMessage(impl, m)) + rest)
            == Ok((FromMessage(impl, m), rest))
  {
    var id := impl.messageId(m);
    var payload := impl.encode(m) + rest;
    assert EncodeProtocolMessage(impl, FromMessage(impl, m)) + rest == EncodeId(id) + payload;
    IdRoundTrip(id, payload);
  }

  // ---------------------------------------------------------------- status message

  /** The handshake message, the only message of `EthStatusMessage`. */
  datatype EthStatusMessage = StatusMessage(status: P.Status)

  function StatusMessageId(m: EthStatusMessage): (id: EthMessageID)
    ensures id == Status
  {
    match m
    case StatusMessage(_) => Status
  }

  /** `EthStatusMessage::decode`: only the `Status` ID is accepted. */
  function DecodeStatusMessage(c: Codec<P.Status>, id: EthMessageID, buf: Bytes): (r: Result<(EthStatusMessage, Bytes), DecodeError>)
    ensures id != Status ==> r == Err(Custom("invalid message id"))
    ensures r.Ok? ==> id == Status && c.decode(buf) == Ok((r.value.0.status, r.value.1))
  {
    match id
    case Status => MapDecoded(c.decode(buf), (s: P.Status) => StatusMessage(s))
    case _ => Err(Custom("invalid message id"))
  }

  function EncodeStatusMessage(c: Codec<P.Status>, m: EthStatusMessage): Bytes
  {
    match m
    case StatusMessage(s) => c.encode(s)
  }

  function StatusMessageLength(c: Codec<P.Status>, m: EthStatusMessage): (n: nat)
    ensures ValidCodec(c) ==> n == |EncodeStatusMessage(c, m)|
  {
    match m
    case StatusMessage(s) => c.length(s)
  }

  function StatusImpl(c: Codec<P.Status>): EthMessageImpl<EthStatusMessage>
  {
    EthMessageImpl(
      StatusMessageId,
      (id: EthMessageID, buf: Bytes) => DecodeStatusMessage(c, id, buf),
      (m: EthStatusMessage) => EncodeStatusMessage(c, m),
      (m: EthStatusMessage) => StatusMessageLength(c, m))
  }

  /** A status message framed as a protocol message decodes back. */
  lemma StatusProtocolRoundTrip(c: Codec<P.Status>, m: EthStatusMessage, rest: Bytes)
    requires ValidCodec(c)
    ensures DecodeProtocolMessage(StatusImpl(c), EncodeProtocolMessage(StatusImpl(c), FromMessage(StatusImpl(c), m)) + rest)
            == Ok((ProtocolMessage(Status, m), rest))
  {
    var impl := StatusImpl(c);
    assert c.decode(c.encode(m.status) + rest) == Ok((m.status, rest));
    assert impl.decode(impl.messageId(m), impl.encode(m) + rest) == Ok((m, rest));
    ProtocolRoundTrip(impl, m, rest);
  }

  // ---------------------------------------------------------------- broadcast messages

  /** Outgoing messages whose payload is shared between the peers they are sent to. */
  datatype EthBroadcastMessage =
    | BroadcastNewBlock(block: P.NewBlock)
    | BroadcastTransactions(transactions: P.SharedTransactions)

  function BroadcastMessageId(m: EthBroadcastMessage): (id: EthMessageID)
    ensures id == NewBlock || id == Transactions
    ensures id == NewBlock <==> m.BroadcastNewBlock?
  {
    match m
    case BroadcastNewBlock(_) => NewBlock
    case BroadcastTransactions(_) => Transactions
  }

  function EncodeBroadcastMessage(cs: P.PayloadCodecs, m: EthBroadcastMessage): Bytes
  {
    match m
    case BroadcastNewBlock(b) => cs.newBlock.encode(b)
    case BroadcastTransactions(t) => cs.sharedTransactions.encode(t)
  }

  function BroadcastMessageLength(cs: P.PayloadCodecs, m: EthBroadcastMessage): (n: nat)
    ensures P.ValidCodecs(cs) ==> n == |EncodeBroadcastMessage(cs, m)|
  {
    match m
    case BroadcastNewBlock(b) => cs.newBlock.length(b)
    case BroadcastTransactions(t) => cs.sharedTransactions.length(t)
  }

  /** A broadcast message with its ID, ready to be sent. */
  datatype ProtocolBroadcastMessage = ProtocolBroadcastMessage(messageType: EthMessageID, message: EthBroadcastMessage)

  /** `From<EthBroadcastMessage> for ProtocolBroadcastMessage`. */
  function FromBroadcast(m: EthBroadcastMessage): (pm: ProtocolBroadcastMessage)
    ensures pm.message == m && pm.messageType == BroadcastMessageId(m)
  {
    ProtocolBroadcastMessage(BroadcastMessageId(m), m)
  }

  function EncodeProtocolBroadcast(cs: P.PayloadCodecs, pm: ProtocolBroadcastMessage): Bytes
  {
    EncodeId(pm.messageType) + EncodeBroadcastMessage(cs, pm.message)
  }

  function ProtocolBroadcastLength(cs: P.PayloadCodecs, pm: ProtocolBroadcastMessage): (n: nat)
    ensures P.ValidCodecs(cs) ==> n == |EncodeProtocolBroadcast(cs, pm)|
  {
    IdLength(pm.messageType) + BroadcastMessageLength(cs, pm.message)
  }

  // ---------------------------------------------------------------- request pairs

  /** A request or response message with the request id that correlates the two. */
  datatype RequestPair<T> = RequestPair(requestId: U64, message: T)

  /** The list payload length of a request pair: a `usize` sum that wraps at 2^64. */
  function RequestPairPayloadLength<T>(c: Codec<T>, p: RequestPair<T>): U64
  {
    (UintLength(p.requestId) + c.length(p.message)) % U64_LIMIT
  }

  /** `Encodable for RequestPair`: a list header, the request id, then the message. */
  function EncodeRequestPair<T>(c: Codec<T>, p: RequestPair<T>): Bytes
  {
    EncodeHeader(Header(true, RequestPairPayloadLength(c, p))) + EncodeUint(p.requestId) + c.encode(p.message)
  }

  /** `Encodable::length` for a request pair: payload plus header, again a `usize` sum
      that wraps at 2^64. */
  function RequestPairLength<T>(c: Codec<T>, p: RequestPair<T>): (n: U64)
    ensures c.length(p.message) == |c.encode(p.message)| && c.length(p.message) < MAX_PAYLOAD ==>
              n == |EncodeRequestPair(c, p)|
  {
    var payload := RequestPairPayloadLength(c, p);
    (payload + LengthOfLength(payload)) % U64_LIMIT
  }

  /** The first two steps of `Decodable for RequestPair`: the list header is read and
      skipped without checking that it is a list or that its length matches what follows,
      then the request id is decoded. */
  function DecodeRequestId(buf: Bytes): Result<(U64, Bytes), DecodeError>
  {
    match DecodeHeader(buf)
    case Err(e) => Err(e)
    case Ok((_, rest)) => DecodeU64(rest)
  }

  /** `Decodable for RequestPair`: the request id, then the message. */
  function DecodeRequestPair<T>(c: Codec<T>, buf: Bytes): Result<(RequestPair<T>, Bytes), DecodeError>
  {
    match DecodeRequestId(buf)
    case Err(e) => Err(e)
    case Ok((id, rest)) =>
      match c.decode(rest)
      case Err(e) => Err(e)
      case Ok((m, rest')) => Ok((RequestPair(id, m), rest'))
  }

  /** A request pair decodes back from its encoding, given a message that decodes back
      from its own. */
  lemma RequestPairRoundTrip<T>(c: Codec<T>, p: RequestPair<T>, rest: Bytes)
    requires c.decode(c.encode(p.message) + rest) == Ok((p.message, rest))
    requires c.length(p.message) == |c.encode(p.message)|
    requires c.length(p.message) < MAX_PAYLOAD
    ensures DecodeRequestPair(c, EncodeRequestPair(c, p) + rest) == Ok((p, rest))
  {
    RequestIdRoundTrip(c, p, rest);
  }

  /** The list header and request id of an encoded pair decode back, leaving the encoded
      message in front of whatever followed. */
  lemma RequestIdRoundTrip<T>(c: Codec<T>, p: RequestPair<T>, rest: Bytes)
    requires c.length(p.message) == |c.encode(p.message)|
    requires c.length(p.message) < MAX_PAYLOAD
    ensures DecodeRequestId(EncodeRequestPair(c, p) + rest) == Ok((p.requestId, c.encode(p.message) + rest))
  {
    var id := EncodeUint(p.requestId);
    var msg := c.encode(p.message);
    var h := Header(true, |id| + |msg|);
    assert RequestPairPayloadLength(c, p) == |id| + |msg|;
    var afterHeader := id + (msg + rest);
    assert EncodeRequestPair(c, p) + rest == EncodeHeader(h) + afterHeader;
    HeaderRoundTrip(h, afterHeader);
    U64RoundTrip(p.requestId, msg + rest);
  }


  /** Every request pair over a valid codec decodes back from its encoding. */
  lemma RequestPairRoundTripValid<T(!new)>(c: Codec<T>, p: RequestPair<T>, rest: Bytes)
    requires ValidCodec(c)
    ensures DecodeRequestPair(c, EncodeRequestPair(c, p) + rest) == Ok((p, rest))
  {
    RequestPairRoundTrip(c, p, rest);
  }

  /** The reference vector: request id 1337 with the message `[5]` encodes to
      `c5 82 05 39 c1 05`, which is also the length the pair reports. */
  lemma RequestPairTestVectorEncode()
    ensures EncodeRequestPair(ByteListCodec, RequestPair(1337, [5])) == [0xc5, 0x82, 0x05, 0x39, 0xc1, 0x05]
    ensures RequestPairLength(ByteListCodec, RequestPair(1337, [5])) == 6
  {
    var p := RequestPair(1337, [5]);
    TestVectorMessage();
    assert BeBytes(1337) == [0x05, 0x39] by {
      assert BeBytes(5) == [5];
    }
    assert EncodeUint(1337) == [0x82, 0x05, 0x39];
    assert RequestPairPayloadLength(ByteListCodec, p) == 5;
    assert EncodeHeader(Header(true, 5)) == [0xc5];
  }

  /** The message part of the reference vector: `[5]` is the list `c1 05`. */
  lemma TestVectorMessage()
    ensures EncodeByteList([5]) == [0xc1, 0x05]
    ensures ByteListLength([5]) == 2
  {
    assert EncodeUint(5) == [5];
    assert EncodeByteItems([5]) == [5] by {
      assert EncodeByteItems([5]) == EncodeUint(5) + EncodeByteItems([]);
    }
  }

  /** The six bytes of the reference vector decode to request id 1337 and message `[5]`. */
  lemma RequestPairTestVectorDecode()
    ensures DecodeRequestPair(ByteListCodec, [0xc5, 0x82, 0x05, 0x39, 0xc1, 0x05]) == Ok((RequestPair(1337, [5]), []))
  {
    var p := RequestPair(1337, [5]);
    TestVectorMessage();
    assert |EncodeByteItems([5])| < U64_LIMIT by {
      assert EncodeByteItems([5]) == EncodeUint(5) + EncodeByteItems([]);
    }
    ByteListRoundTrip([5], []);
    assert ByteListCodec.encode(p.message) + [] == ByteListCodec.encode(p.message);
    RequestPairRoundTrip(ByteListCodec, p, []);
    RequestPairTestVectorEncode();
    assert EncodeRequestPair(ByteListCodec, p) + [] == EncodeRequestPair(ByteListCodec, p);
  }

  // ---------------------------------------------------------------- the imperative layer

  /** The output buffer that encoders append to (`BufMut`). */
  class Sink {
    var bytes: Bytes

    constructor ()
      ensures bytes == []
    {
      bytes := [];
    }

    method PutU8(b: Byte)
      modifies this
      ensures bytes == old(bytes) + [b]
    {
      bytes := bytes + [b];
    }

    method PutSlice(s: Bytes)
      modifies this
      ensures bytes == old(bytes) + s
    {
      bytes := bytes + s;
    }
  }

  /** The input slice that decoders advance in place (`&mut &[u8]`). */
  class Source {
    var buf: Bytes

    constructor (input: Bytes)
      ensures buf == input
    {
      buf := input;
    }

    method Advance(n: nat)
      requires n <= |buf|
      modifies this
      ensures buf == old(buf)[n..]
    {
      buf := buf[n..];
    }
  }

  /** `EthMessageID::encode`: writes the discriminant byte. */
  method WriteId(id: EthMessageID, out: Sink)
    modifies out
    ensures out.bytes == old(out.bytes) + EncodeId(id)
  {
    out.PutU8(IdByte(id));
  }

  /** `EthMessageID::decode` on a slice: the slice advances past the ID byte only when the
      byte names an ID, and is left as it was on every failure. */
  method ReadId(src: Source) returns (r: Result<EthMessageID, DecodeError>)
    modifies src
    ensures DecodeId(old(src.buf)).Ok? ==>
              r == Ok(DecodeId(old(src.buf)).value.0) && src.buf == DecodeId(old(src.buf)).value.1
    ensures DecodeId(old(src.buf)).Err? ==>
              r == Err(DecodeId(old(src.buf)).error) && src.buf == old(src.buf)
  {
    if src.buf == [] {
      return Err(InputTooShort);
    }
    var id := IdOfByte(src.buf[0]);
    if id.None? {
      return Err(Custom("Invalid message ID"));
    }
    src.Advance(1);
    return Ok(id.value);
  }

  /** `ProtocolMessage::encode`: the ID byte, then the message. */
  method WriteProtocolMessage<T>(impl: EthMessageImpl<T>, pm: ProtocolMessage<T>, out: Sink)
    modifies out
    ensures out.bytes == old(out.bytes) + EncodeProtocolMessage(impl, pm)
  {
    WriteId(pm.messageType, out);
    out.PutSlice(impl.encode(pm.message));
  }

  /** `ProtocolMessage::decode` on a slice. */
  method ReadProtocolMessage<T>(impl: EthMessageImpl<T>, src: Source) returns (r: Result<ProtocolMessage<T>, DecodeError>)
    modifies src
    ensures DecodeProtocolMessage(impl, old(src.buf)).Ok? ==>
              r == Ok(DecodeProtocolMessage(impl, old(src.buf)).value.0)
              && src.buf == DecodeProtocolMessage(impl, old(src.buf)).value.1
    ensures DecodeProtocolMessage(impl, old(src.buf)).Err? ==>
              r == Err(DecodeProtocolMessage(impl, old(src.buf)).error)
  {
    var id := ReadId(src);
    if id.Err? {
      return Err(id.error);
    }
    var m := impl.decode(id.value, src.buf);
    if m.Err? {
      return Err(m.error);
    }
    src.buf := m.value.1;
    return Ok(ProtocolMessage(id.value, m.value.0));
  }

  /** `RequestPair::encode`: header, request id, message. */
  method WriteRequestPair<T>(c: Codec<T>, p: RequestPair<T>, out: Sink)
    modifies out
    ensures out.bytes == old(out.bytes) + EncodeRequestPair(c, p)
  {
    var header := Header(true, RequestPairPayloadLength(c, p));
    out.PutSlice(EncodeHeader(header));
    out.PutSlice(EncodeUint(p.requestId));
    out.PutSlice(c.encode(p.message));
  }

  /** `RequestPair::decode` on a slice. */
  method ReadRequestPair<T>(c: Codec<T>, src: Source) returns (r: Result<RequestPair<T>, DecodeError>)
    modifies src
    ensures DecodeRequestPair(c, old(src.buf)).Ok? ==>
              r == Ok(DecodeRequestPair(c, old(src.buf)).value.0)
              && src.buf == DecodeRequestPair(c, old(src.buf)).value.1
    ensures DecodeRequestPair(c, old(src.buf)).Err? ==>
              r == Err(DecodeRequestPair(c, old(src.buf)).error)
  {
    var header := DecodeHeader(src.buf);
    if header.Err? {
      return Err(header.error);
    }
    src.buf := header.value.1;
    var id := DecodeU64(src.buf);
    if id.Err? {
      return Err(id.error);
    }
    src.buf := id.value.1;
    var m := c.decode(src.buf);
    if m.Err? {
      return Err(m.error);
    }
    src.buf := m.value.1;
    return Ok(RequestPair(id.value.0, m.value.0));
  }

  /** `RequestPair::length`, accumulated in a local as the source does; it is the size of
      the encoding whenever the message's own length is. */
  method AccumulateRequestPairLength<T>(c: Codec<T>, p: RequestPair<T>) returns (length: U64)
    ensures length == RequestPairLength(c, p)
    ensures c.length(p.message) == |c.encode(p.message)| && c.length(p.message) < MAX_PAYLOAD ==>
              length == |EncodeRequestPair(c, p)|
  {
    var acc: U64 := 0;
    acc := (acc + UintLength(p.requestId)) % U64_LIMIT;
    acc := (acc + c.length(p.message)) % U64_LIMIT;
    length := (acc + LengthOfLength(acc)) % U64_LIMIT;
  }
}
