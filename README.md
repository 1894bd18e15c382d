# reth eth-wire message framing and the typed mdbx cursor, in Dafny

This project models two independent parts of reth.

**The `eth` wire protocol's message layer** (`crates/net/eth-wire/src/types`):
- the one-byte `EthMessageID` and its three conversions: encode, decode and `TryFrom<usize>`;
- `ProtocolMessage`, which frames a message as its ID byte followed by the payload;
- `EthStatusMessage` and `EthBroadcastMessage`;
- `RequestPair`, the RLP list `[request_id, message]` that eth/66 introduced to correlate requests with responses;
- the per-version message enums of eth/66, eth/67 and eth/68: their `message_id`, their `decode` dispatch by ID, and their `encode`/`length`.

Payload types (`Status`, `BlockHeaders`, …) are opaque. Their codecs are parameters. The round-trip that a codec is assumed to satisfy is the hypothesis `ValidCodec`, which lemmas take as a precondition. Just enough RLP (Ethereum Yellow Paper, Appendix B) is modelled for the request-pair framing: list and string headers, minimal big-endian `u64`, and byte lists for the test vector.

**The typed database cursor** (`crates/storage/db/src/implementation/mdbx/cursor.rs`). Every method is one native libmdbx call. Its failure is mapped to `Error::Read`, `Error::Write` or `Error::Delete`, and a raw entry it finds is decoded with the table's codecs. The native cursor is modelled abstractly by the class `Mdbx.NativeCursor`:
- a table is a strictly increasing sequence of (key, value) entries, in byte-lexicographic order;
- outside DUPSORT tables, keys are unique;
- a cursor holds a position and the engine failure, if any, that every call reports. The position is one of: none; on an entry; or, after a delete, just before the entry that followed the deleted one.

The typed `DbCursor.Cursor` is a class wrapping that native cursor. Its methods state the resulting table and position in terms of the pure search, put and delete functions of `Mdbx`. Lemmas state what those functions guarantee.

Files:
- `common.dfy`: bytes, `Option`, `Result`.
- `rlp.dfy`: the RLP subset.
- `payloads.dfy`: opaque payload types and their codecs.
- `message.dfy`: IDs, protocol messages, status and broadcast messages, request pairs, and the buffer-level encoders and decoders.
- `eth66.dfy`, `eth67.dfy`, `eth68.dfy`: the per-version message sets.
- `byte_order.dfy`: the key order.
- `mdbx.dfy`: the abstract native cursor.
- `cursor.dfy`: the typed cursor.

## Model

| member | source | states |
|---|---|---|
| Message.IdRoundTrip | crates/net/eth-wire/src/types/message.rs:188-221 | every ID decodes from its one-byte encoding and consumes exactly that byte |
| Message.IdLength | crates/net/eth-wire/src/types/message.rs:188-195 | the length of an ID is 1, the number of bytes its encoding writes |
| Message.DecodeId | crates/net/eth-wire/src/types/message.rs:197-221 | a successful decode read the first byte, which is the ID's encoding, and leaves the rest |
| Message.IdDecodeFailures | crates/net/eth-wire/src/types/message.rs:197-221 | an empty buffer gives `InputTooShort`; 0x0b, 0x0c and bytes above 0x10 give "Invalid message ID"; every other byte decodes |
| Message.ReadId | crates/net/eth-wire/src/types/message.rs:197-221 | on a slice: advances one byte on success, and the slice is untouched on every failure |
| Message.WriteId | crates/net/eth-wire/src/types/message.rs:188-191 | appends exactly the ID byte to the output |
| Message.IdTryFromAgreesWithDecode | crates/net/eth-wire/src/types/message.rs:223-246 | `TryFrom<usize>` accepts exactly the values the byte decoder accepts, maps them to the same IDs, and rejects the rest with "Invalid message ID" |
| Message.IdTryFromInverse | crates/net/eth-wire/src/types/message.rs:223-246 | `TryFrom` inverts the discriminant for every ID |
| Message.FromMessage | crates/net/eth-wire/src/types/message.rs:40-44 | `From` keeps the message and takes its `message_id` as the type |
| Message.ProtocolMessageLength | crates/net/eth-wire/src/types/message.rs:35-37 | the protocol message length is the size of its encoding (ID byte plus payload) whenever the payload's own length is |
| Message.WriteProtocolMessage | crates/net/eth-wire/src/types/message.rs:30-34 | appends the ID byte, then the payload encoding |
| Message.ProtocolDecodeSteps | crates/net/eth-wire/src/types/message.rs:21-25 | decode reads the ID, then decodes the rest under that ID; the first failing step's error is returned unchanged |
| Message.ReadProtocolMessage | crates/net/eth-wire/src/types/message.rs:21-25 | on a slice: the result and remaining slice are those of the decode function; failures return its error |
| Message.ProtocolRoundTrip | crates/net/eth-wire/src/types/message.rs:21-44 | a message converted with `From` and encoded decodes back, for any payload type whose encoding decodes under its own ID |
| Message.StatusMessageId | crates/net/eth-wire/src/types/message.rs:98-102 | the status message's ID is always `Status` |
| Message.DecodeStatusMessage | crates/net/eth-wire/src/types/message.rs:104-109 | only `Status` is accepted; any other ID fails with "invalid message id"; on success the status is what its codec decoded |
| Message.StatusMessageLength | crates/net/eth-wire/src/types/message.rs:118-122 | the length is the size of the encoding under a valid codec |
| Message.StatusProtocolRoundTrip | crates/net/eth-wire/src/types/message.rs:96-123 | a framed status message decodes back |
| Message.BroadcastMessageId | crates/net/eth-wire/src/types/message.rs:140-148 | the ID is `NewBlock` exactly for the new-block variant, and `Transactions` otherwise |
| Message.BroadcastMessageLength | crates/net/eth-wire/src/types/message.rs:158-163 | the length is the size of the payload encoding under valid codecs |
| Message.FromBroadcast | crates/net/eth-wire/src/types/message.rs:65-69 | `From` keeps the message and takes its ID as the type |
| Message.ProtocolBroadcastLength | crates/net/eth-wire/src/types/message.rs:55-63 | the length is the size of the encoding (ID byte plus payload) under valid codecs |
| Message.RequestPairLength | crates/net/eth-wire/src/types/message.rs:275-281 | the reported length (wrapping at 2^64 like the `usize` sum) is the size of the encoding whenever the message's length is |
| Message.AccumulateRequestPairLength | crates/net/eth-wire/src/types/message.rs:275-281 | the accumulating computation gives the length function, hence the size of the encoding |
| Message.WriteRequestPair | crates/net/eth-wire/src/types/message.rs:266-273 | appends the list header (payload = id length + message length), the request id, then the message |
| Message.RequestIdRoundTrip | crates/net/eth-wire/src/types/message.rs:289-291 | the header and request id of an encoded pair decode back, leaving the encoded message in front |
| Message.RequestPairRoundTrip | crates/net/eth-wire/src/types/message.rs:266-292 | a request pair decodes back from its encoding when its message does |
| Message.RequestPairRoundTripValid | crates/net/eth-wire/src/types/message.rs:266-292 | every request pair over a valid codec decodes back |
| Message.ReadRequestPair | crates/net/eth-wire/src/types/message.rs:289-292 | on a slice: result and remaining slice are those of the decode function, failures return its error |
| Message.RequestPairTestVectorEncode | crates/net/eth-wire/src/types/message.rs:307-320 | `{1337, [5]}` encodes to `c5 82 05 39 c1 05`, and its length is 6 |
| Message.RequestPairTestVectorDecode | crates/net/eth-wire/src/types/message.rs:322-331 | `c5 82 05 39 c1 05` decodes to `{1337, [5]}` and consumes everything |
| Rlp.HeaderRoundTrip | crates/net/eth-wire/src/types/message.rs:267-270 | a header decodes back from its encoding when the payload it announces follows |
| Rlp.U64RoundTrip | crates/net/eth-wire/src/types/message.rs:271 | a `u64` request id decodes back from its minimal big-endian encoding |
| Rlp.ByteListRoundTrip | crates/net/eth-wire/src/types/message.rs:309-330 | a `Vec<u8>` message decodes back from its RLP list encoding |
| Eth66.MessageIdProperties | crates/net/eth-wire/src/types/eth66message.rs:52-69 | no variant has `Status`; each ID belongs to exactly one variant, so the 14 variants have 14 distinct IDs; exactly the request/response variants carry a request id |
| Eth66.Decode | crates/net/eth-wire/src/types/eth66message.rs:71-123 | a decoded message has the ID it was decoded under; `Status` is rejected with "invalid message id" |
| Eth66.DecodedRequestId | crates/net/eth-wire/src/types/eth66message.rs:81-120 | the ten request/response IDs yield a message carrying the request id read after the list header; broadcast IDs carry none |
| Eth66.DecodeGetBlockHeaders | crates/net/eth-wire/src/types/eth66message.rs:81-84 | decoding under `GetBlockHeaders` is `RequestPair::<GetBlockHeaders>::decode`, wrapped |
| Eth66.DecodeReceipts | crates/net/eth-wire/src/types/eth66message.rs:117-120 | decoding under `Receipts` is `RequestPair::<Receipts>::decode`, wrapped (likewise `DecodeBlockHeaders` … `DecodeGetReceipts` for the other request IDs) |
| Eth66.RoundTrip | crates/net/eth-wire/src/types/eth66message.rs:71-162 | under valid codecs every message decodes back from its encoding under its own ID, and `length` is the size of that encoding |
| Eth66.ImplRoundTrips | crates/net/eth-wire/src/types/eth66message.rs:50-163 | the eth/66 implementation satisfies the `EthMessage` round-trip contract |
| Eth66.ProtocolRoundTrip | crates/net/eth-wire/src/types/eth66message.rs:50-163 | an eth/66 message framed as a protocol message decodes back |
| Eth67.MessageIdProperties | crates/net/eth-wire/src/types/eth67message.rs:50-65 | no variant has `Status`, `GetNodeData` or `NodeData`; the 12 variants have 12 distinct IDs; exactly the request/response variants carry a request id |
| Eth67.Decode | crates/net/eth-wire/src/types/eth67message.rs:67-111 | a decoded message has the ID it was decoded under; `Status`, `GetNodeData` and `NodeData` are rejected with "invalid message id" |
| Eth67.DecodedRequestId | crates/net/eth-wire/src/types/eth67message.rs:77-108 | the eight request/response IDs yield a message carrying the decoded request id; broadcast IDs carry none |
| Eth67.Eth66Embedding | crates/net/eth-wire/src/types/eth67message.rs:30-46 | every eth/67 variant has its eth/66 counterpart, and the eth/66 messages without one are exactly `GetNodeData` and `NodeData` |
| Eth67.EncodesAsEth66 | crates/net/eth-wire/src/types/eth67message.rs:50-146 | `message_id`, `encode` and `length` agree with eth/66's on corresponding messages |
| Eth67.DecodesAsEth66 | crates/net/eth-wire/src/types/eth67message.rs:67-111 | under every ID but the node-data pair, decoding agrees with eth/66's decoder: the same errors, corresponding messages, so request/response IDs decode a `RequestPair` of their payload type |
| Eth67.RoundTrip | crates/net/eth-wire/src/types/eth67message.rs:67-146 | under valid codecs every message decodes back under its own ID, and `length` is the size of its encoding |
| Eth67.ImplRoundTrips | crates/net/eth-wire/src/types/eth67message.rs:48-147 | the eth/67 implementation satisfies the `EthMessage` round-trip contract |
| Eth67.ProtocolRoundTrip | crates/net/eth-wire/src/types/eth67message.rs:48-147 | an eth/67 message framed as a protocol message decodes back |
| Eth68.MessageIdProperties | crates/net/eth-wire/src/types/eth68message.rs:50-65 | as for eth/67: no `Status`/`GetNodeData`/`NodeData`, 12 distinct IDs, request ids exactly on request/response variants |
| Eth68.Decode | crates/net/eth-wire/src/types/eth68message.rs:67-111 | a decoded message has the ID it was decoded under; `Status`, `GetNodeData` and `NodeData` are rejected |
| Eth68.DecodedRequestId | crates/net/eth-wire/src/types/eth68message.rs:77-108 | request/response IDs yield the decoded request id; broadcast IDs none |
| Eth68.Eth67Correspondence | crates/net/eth-wire/src/types/eth68message.rs:30-46 | the variant-by-variant correspondence with eth/67 is a bijection |
| Eth68.EncodesAsEth67 | crates/net/eth-wire/src/types/eth68message.rs:48-146 | `message_id`, `encode` and `length` agree with eth/67's on corresponding messages |
| Eth68.DecodesAsEth67 | crates/net/eth-wire/src/types/eth68message.rs:67-111 | for every ID and buffer, decoding agrees with eth/67's decoder: same accepted IDs, same errors, corresponding messages |
| Eth68.RoundTrip | crates/net/eth-wire/src/types/eth68message.rs:67-146 | under valid codecs every message decodes back under its own ID, and `length` is the size of its encoding |
| Eth68.ImplRoundTrips | crates/net/eth-wire/src/types/eth68message.rs:48-147 | the eth/68 implementation satisfies the `EthMessage` round-trip contract |
| Eth68.ProtocolRoundTrip | crates/net/eth-wire/src/types/eth68message.rs:48-147 | an eth/68 message framed as a protocol message decodes back |
| Mdbx.SetRangeFindsLowerBound | crates/storage/db/src/implementation/mdbx/cursor.rs:56-58 | the search behind `seek` finds the first entry whose key is at least the given one, and nothing exactly when every key is smaller |
| Mdbx.SetKeyFindsExact | crates/storage/db/src/implementation/mdbx/cursor.rs:52-54 | the search behind `seek_exact` finds an entry exactly when the key is present, and then its first entry |
| Mdbx.GetBothRangeFindsDuplicate | crates/storage/db/src/implementation/mdbx/cursor.rs:154-164 | the search behind `seek_by_key_subkey` finds the first duplicate of the key whose value is at least the subkey, and nothing exactly when there is none |
| Mdbx.NextDupKeepsKey | crates/storage/db/src/implementation/mdbx/cursor.rs:140-152 | `next_dup`/`next_dup_val` never move to a different key (after a delete, from the deleted entry's key) |
| Mdbx.NextNoDupSkipsKey | crates/storage/db/src/implementation/mdbx/cursor.rs:145-147 | `next_no_dup` lands on the first entry of the next greater key, skipping only entries of the current key (after a delete, of the deleted entry's key) |
| Mdbx.PutProperties | crates/storage/db/src/implementation/mdbx/cursor.rs:218-253 | every successful put keeps the table well formed, adds the entry, and removes only the entries it overwrites (same key, non-DUPSORT) |
| Mdbx.UpsertProperties | crates/storage/db/src/implementation/mdbx/cursor.rs:216-223 | an upsert keeps the table well formed, adds the entry, and outside DUPSORT tables drops only the old entry of its key |
| Mdbx.UpsertSucceeds | crates/storage/db/src/implementation/mdbx/cursor.rs:216-223 | upsert always succeeds and the entry is in the new table |
| Mdbx.UpsertUnique | crates/storage/db/src/implementation/mdbx/cursor.rs:216-223 | in a non-DUPSORT table upsert inserts or overwrites: the new table has the entry and every other key's entry |
| Mdbx.NoOverwriteFailsOnExistingKey | crates/storage/db/src/implementation/mdbx/cursor.rs:225-229 | `insert` fails exactly when the key is present, with `KEYEXIST` |
| Mdbx.AppendFailsOnSmallerKey | crates/storage/db/src/implementation/mdbx/cursor.rs:231-237 | `append` fails exactly when some key of the table sorts after the new one, with `EKEYMISMATCH` |
| Mdbx.AppendActsAsUpsert | crates/storage/db/src/implementation/mdbx/cursor.rs:231-237 | whenever `append` succeeds it leaves the table `upsert` would; onto the last key it overwrites, or adds a duplicate |
| Mdbx.AppendLarger | crates/storage/db/src/implementation/mdbx/cursor.rs:231-237 | appending a key larger than the last keeps the table sorted and its keys unique, every old key sorting before it |
| Mdbx.AppendDupAfterLastDuplicate | crates/storage/db/src/implementation/mdbx/cursor.rs:249-253 | `append_dup` fails, with `EKEYMISMATCH`, exactly when the key has a duplicate whose value does not sort before the new one; whenever it succeeds it leaves the table `upsert` would |
| Mdbx.DelLandsAfterDeleted | crates/storage/db/src/implementation/mdbx/cursor.rs:239-247 | after a delete the cursor stands just after what was removed: every entry before it sorts before the deleted entry (or key), every entry from it on after, so the next `next` yields the entry that followed |
| Mdbx.DelProperties | crates/storage/db/src/implementation/mdbx/cursor.rs:239-247 | a delete fails exactly when no entry is under the cursor; the new position is valid in the new table; `delete_current` removes exactly the current entry and `delete_current_duplicates` exactly the entries of the current key, keeping the table well formed |
| DbCursor.DecodePair | crates/storage/db/src/implementation/mdbx/cursor.rs:39-45 | a raw entry decodes exactly when key and value decode, to those two, and otherwise to the decode error |
| DbCursor.DecodeRead | crates/storage/db/src/implementation/mdbx/cursor.rs:39-45 | a native failure becomes `Read` with its code; nothing found is `Ok(None)`; a found entry is decoded |
| DbCursor.DecodeReadValue | crates/storage/db/src/implementation/mdbx/cursor.rs:150-164 | as `DecodeRead`, decoding only the value |
| DbCursor.WriteError | crates/storage/db/src/implementation/mdbx/cursor.rs:218-237 | write failures become `Write` with the native code; success is kept |
| DbCursor.DeleteError | crates/storage/db/src/implementation/mdbx/cursor.rs:239-247 | delete failures become `Delete` with the native code; success is kept |
| DbCursor.TransposeInverse | crates/storage/db/src/implementation/mdbx/cursor.rs:89-132 | `Option::transpose` and `Result::transpose` are inverse |
| DbCursor.RangeCheckProperties | crates/storage/db/src/implementation/mdbx/cursor.rs:102-106 | only an included start with an included or excluded end is ever rejected, and equal ends are not |
| DbCursor.Cursor.First | crates/storage/db/src/implementation/mdbx/cursor.rs:48-50 | result and new position are those of the native `first`, decoded by `decode!`; the table is unchanged |
| DbCursor.Cursor.SeekExact | crates/storage/db/src/implementation/mdbx/cursor.rs:52-54 | result and new position are those of the native `set_key` on the encoded key |
| DbCursor.Cursor.Seek | crates/storage/db/src/implementation/mdbx/cursor.rs:56-58 | result and new position are those of the native `set_range` on the encoded key |
| DbCursor.Cursor.Next | crates/storage/db/src/implementation/mdbx/cursor.rs:60-62 | result and new position are those of the native `next` |
| DbCursor.Cursor.Prev | crates/storage/db/src/implementation/mdbx/cursor.rs:64-66 | result and new position are those of the native `prev` |
| DbCursor.Cursor.Last | crates/storage/db/src/implementation/mdbx/cursor.rs:68-70 | result and new position are those of the native `last` |
| DbCursor.Cursor.Current | crates/storage/db/src/implementation/mdbx/cursor.rs:72-74 | the entry under the cursor, decoded; `Ok(None)` when no entry is under it (unpositioned, or past the end after a delete); `Read(code)` on a fault |
| DbCursor.Cursor.Walk | crates/storage/db/src/implementation/mdbx/cursor.rs:76-93 | `Some(k)`: starts where `set_range(k)` lands, a native failure returned at once; `None`: starts with what `first()` returns |
| DbCursor.Cursor.WalkRange | crates/storage/db/src/implementation/mdbx/cursor.rs:95-118 | a contradictory range gives `Read(2)` before the cursor moves; otherwise it starts at `set_range(s)` or `first()` and keeps both bounds |
| DbCursor.Cursor.WalkBack | crates/storage/db/src/implementation/mdbx/cursor.rs:120-135 | `Some(k)`: starts where `set_range(k)` lands (at or after `k`); `None`: starts with what `last()` returns |
| DbCursor.Cursor.NextDup | crates/storage/db/src/implementation/mdbx/cursor.rs:140-142 | result and new position are those of the native `next_dup` |
| DbCursor.Cursor.NextNoDup | crates/storage/db/src/implementation/mdbx/cursor.rs:145-147 | result and new position are those of the native `next_nodup` |
| DbCursor.Cursor.NextDupVal | crates/storage/db/src/implementation/mdbx/cursor.rs:150-152 | the value of the native `next_dup`, decompressed |
| DbCursor.Cursor.SeekByKeySubkey | crates/storage/db/src/implementation/mdbx/cursor.rs:154-164 | the value found by `get_both_range` on the encoded key and subkey, decompressed |
| DbCursor.Cursor.WalkDup | crates/storage/db/src/implementation/mdbx/cursor.rs:172-212 | the four cases: `get_both_range` or `set` on the key (the start item keeps the searched key); the first key's duplicates; `Read(NOT_FOUND)` as start item on an empty table; `first()` |
| DbCursor.Cursor.Upsert | crates/storage/db/src/implementation/mdbx/cursor.rs:216-223 | the native put with `UPSERT`: new table on success with the cursor on the new entry, state unchanged on failure, failure as `Write` |
| DbCursor.Cursor.Insert | crates/storage/db/src/implementation/mdbx/cursor.rs:225-229 | the native put with `NO_OVERWRITE`: new table on success with the cursor on the new entry, state unchanged on failure, failure as `Write` |
| DbCursor.Cursor.Append | crates/storage/db/src/implementation/mdbx/cursor.rs:231-237 | the native put with `APPEND`: new table on success with the cursor on the new entry, state unchanged on failure, failure as `Write` |
| DbCursor.Cursor.DeleteCurrent | crates/storage/db/src/implementation/mdbx/cursor.rs:239-241 | the native del with `CURRENT`: new table on success with the cursor just before the entry that followed, state unchanged on failure, failure as `Delete` |
| DbCursor.Cursor.DeleteCurrentDuplicates | crates/storage/db/src/implementation/mdbx/cursor.rs:245-247 | the native del with `NO_DUP_DATA`: new table on success with the cursor just before the entry that followed, state unchanged on failure, failure as `Delete` |
| DbCursor.Cursor.AppendDup | crates/storage/db/src/implementation/mdbx/cursor.rs:249-253 | the native put with `APPEND_DUP`: new table on success with the cursor on the new entry, state unchanged on failure, failure as `Write` |

## Left out

- libmdbx itself is not part of this model. `Mdbx` is an abstract model of its documented behaviour, not of its B-tree code. It covers which entry each get operation lands on, the positioning rules, the put flags, and where a delete leaves the cursor. It does not cover B-tree pages, transactions, commit or abort.
- Mdbx.Find: after a delete the model's steps are: `next` yields the entry that followed the deleted one; `prev` the one before it; `next_dup` the following entry only if it has the deleted entry's key; `next_nodup` the first entry with a different key. A delete, or `get_current`, with the cursor past the last entry reports `MDBX_NOTFOUND`, respectively nothing. These are modelling assumptions about libmdbx's cursor, whose code is not part of this model.
- Mdbx.AppendDupAfterLastDuplicate: a value equal to the key's last duplicate is modelled as refused with `MDBX_EKEYMISMATCH`, the same code as a smaller value.
- Native error codes are kept as integers. Only the codes the model produces are named: `MDBX_NOTFOUND`, `MDBX_KEYEXIST`, `MDBX_EKEYMISMATCH` and `ENODATA`. Any other failure is the cursor's `fault`, which every native call reports unchanged.
- The walkers' iteration (`Walker::next` and the others) lives outside the modelled file. Only the start item each constructor computes is modelled, and range bounds are only stored.
- DbCursor.Cursor.WalkRange: the `Bound::Excluded` start arm is `unreachable!`, so it is a precondition.
- The `RO`/`RW` type-state is the `readWrite` flag, a precondition of the write methods. DUPSORT-only methods likewise require a DUPSORT table.
- Lifetimes, `PhantomData`, `Cow`, `Box`, `Arc` and serde derives carry no behaviour and are not modelled. `SharedTransactions` is an opaque payload type.
- The payload types and their RLP codecs are opaque. `reth_rlp` is not part of this model: only list/string headers, minimal `u64` integers and byte lists are modelled, following Appendix B of the Ethereum Yellow Paper.
- Message.RequestPairPayloadLength: the header's payload length is a `usize` sum and wraps at 2^64. The round-trip lemmas assume a message shorter than the largest payload a header can describe.
- Message.ReadProtocolMessage: after a payload decoding failure, the slice position is not stated. The source leaves it wherever the payload decoder stopped.
- Message.ReadRequestPair: after a failure, the slice position is not stated. The source leaves it wherever the failing decoder stopped.
- `RequestPair::decode` does not check the list header's kind or length against what follows. The model does not check them either.
- Each version's `decode` is stated through `RequestPair::decode` split at the request id (`Message.DecodeRequestId`). This is the same computation: `Eth66.DecodeGetBlockHeaders` and its siblings state that it equals `RequestPair::<T>::decode` for each request ID.
- Encoding into a `BufMut` is modelled as appending to a byte sequence (`Message.Sink`), and a `&mut &[u8]` being advanced as a `Message.Source`. Out-of-memory and buffer capacity are not modelled.
