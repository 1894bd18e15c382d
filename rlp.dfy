/**
 * The part of RLP (Recursive Length Prefix, Appendix B of the Ethereum Yellow Paper)
 * that the eth wire framing relies on: the item header, unsigned integers and the list
 * of one-byte integers, as the `reth_rlp` crate encodes and decodes them.
 *
 * Decoders work on a byte slice that the source advances in place; here they return the
 * decoded value together with the part of the input they did not consume.
 */
module Rlp {
  import opened Common

  /** `reth_rlp::DecodeError`. */
  datatype DecodeError =
    | Overflow
    | LeadingZero
    | InputTooShort
    | NonCanonicalSingleByte
    | NonCanonicalSize
    | UnexpectedLength
    | UnexpectedString
    | UnexpectedList
    | Custom(msg: string)

  const EMPTY_STRING_CODE: Byte := 0x80
  const EMPTY_LIST_CODE: Byte := 0xC0

  /** Payload encodings of the message types stay below this size, so every length
      the framing adds up still fits a `usize`. */
  const MAX_PAYLOAD: nat := 0x8000_0000_0000_0000

  /** An RLP item header: string or list, and the length of the payload after it. */
  datatype Header = Header(list: bool, payloadLength: U64)

  /** The `Encodable`/`Decodable` implementation of one payload type. */
  datatype Codec<!T> = Codec(
    encode: T -> Bytes,
    length: T -> nat,
    decode: Bytes -> Result<(T, Bytes), DecodeError>)

  /** What the model assumes of every payload codec: decoding an encoding returns the
      value and exactly the bytes after it, `length` is the encoded size, and encodings
      are shorter than `MAX_PAYLOAD`. */
  ghost predicate ValidCodec<T(!new)>(c: Codec<T>) {
    && (forall x: T, rest: Bytes {:trigger c.decode(c.encode(x) + rest)} ::
          c.decode(c.encode(x) + rest) == Ok((x, rest)))
    && (forall x: T {:trigger c.length(x)} :: c.length(x) == |c.encode(x)| && c.length(x) < MAX_PAYLOAD)
  }

  /** Applies a constructor to a decoded value, passing errors and the remaining input through. */
  function MapDecoded<A, B>(r: Result<(A, Bytes), DecodeError>, f: A -> B): Result<(B, Bytes), DecodeError>
  {
    match r
    case Err(e) => Err(e)
    case Ok((a, rest)) => Ok((f(a), rest))
  }

  /** True when `rest` is what remains of `buf` after a prefix was consumed. */
  predicate IsSuffix(rest: Bytes, buf: Bytes) {
    |rest| <= |buf| && rest == buf[|buf| - |rest|..]
  }

  // ---------------------------------------------------------------- big-endian bytes

  function Pow256(k: nat): (p: nat)
    ensures p >= 1
  {
    if k == 0 then 1 else 256 * Pow256(k - 1)
  }

  lemma {:induction false} Pow256Monotone(j: nat, k: nat)
    requires j <= k
    ensures Pow256(j) <= Pow256(k)
  {
    if j < k {
      Pow256Monotone(j, k - 1);
    }
  }

  lemma Pow256Eight()
    ensures Pow256(8) == U64_LIMIT
  {
  }

  /** Minimal big-endian bytes of `n` (no leading zero, empty for zero). */
  function BeBytes(n: nat): Bytes
    decreases n
  {
    if n == 0 then [] else BeBytes(n / 256) + [n % 256]
  }

  /** Big-endian value of a byte string, as `from_be_bytes` of its left-padded form. */
  function BeValue(s: Bytes): nat
  {
    if s == [] then 0 else BeValue(s[..|s| - 1]) * 256 + s[|s| - 1]
  }

  lemma {:induction false} BeRoundTrip(n: nat)
    ensures BeValue(BeBytes(n)) == n
    decreases n
  {
    if n != 0 {
      var b := BeBytes(n / 256);
      BeRoundTrip(n / 256);
      assert (b + [n % 256])[..|b|] == b;
    }
  }

  lemma {:induction false} BeBytesCanonical(n: nat)
    ensures n == 0 <==> BeBytes(n) == []
    ensures n > 0 ==> BeBytes(n)[0] != 0
    decreases n
  {
    if n >= 256 {
      BeBytesCanonical(n / 256);
    }
  }

  lemma {:induction false} BeBytesFit(n: nat, k: nat)
    requires n < Pow256(k)
    ensures |BeBytes(n)| <= k
    decreases k
  {
    if n != 0 {
      assert k != 0;
      assert n / 256 < Pow256(k - 1);
      BeBytesFit(n / 256, k - 1);
    }
  }

  lemma {:induction false} BeValueBound(s: Bytes)
    ensures BeValue(s) < Pow256(|s|)
    decreases |s|
  {
    if s != [] {
      var init := s[..|s| - 1];
      BeValueBound(init);
      assert BeValue(init) * 256 <= (Pow256(|init|) - 1) * 256;
    }
  }

  /** A value below 2^64 has at most eight minimal big-endian bytes. */
  lemma U64Fits(n: nat)
    requires n < U64_LIMIT
    ensures |BeBytes(n)| <= 8
  {
    Pow256Eight();
    BeBytesFit(n, 8);
  }

  // ---------------------------------------------------------------- headers

  /** `Header::encode`: one byte for a payload under 56 bytes, otherwise a byte giving the
      length of the big-endian payload length, then that length. */
  function EncodeHeader(h: Header): (r: Bytes)
    ensures 1 <= |r| <= 9
  {
    var code := if h.list then EMPTY_LIST_CODE else EMPTY_STRING_CODE;
    if h.payloadLength < 56 then
      [code + h.payloadLength]
    else
      var be := BeBytes(h.payloadLength);
      U64Fits(h.payloadLength);
      [code + 55 + |be|] + be
  }

  /** `length_of_length`: the size of the header for a payload of `payloadLength` bytes. */
  function LengthOfLength(payloadLength: U64): (n: nat)
    ensures n == |EncodeHeader(Header(true, payloadLength))|
    ensures n == |EncodeHeader(Header(false, payloadLength))|
  {
    if payloadLength < 56 then 1 else 1 + |BeBytes(payloadLength)|
  }

  /** The long form of a header, after its first byte: `lenOfLen` bytes of length. */
  function DecodeLongHeader(list: bool, lenOfLen: nat, rest: Bytes): (r: Result<(Header, Bytes), DecodeError>)
    requires 1 <= lenOfLen <= 8
    ensures r.Ok? ==> IsSuffix(r.value.1, rest) && r.value.0.payloadLength <= |r.value.1|
  {
    if |rest| < lenOfLen then Err(InputTooShort)
    else if rest[0] == 0 then Err(LeadingZero)
    else
      BeValueBound(rest[..lenOfLen]);
      Pow256Monotone(lenOfLen, 8);
      Pow256Eight();
      var len := BeValue(rest[..lenOfLen]);
      var rest' := rest[lenOfLen..];
      if len < 56 then Err(NonCanonicalSize)
      else if |rest'| < len then Err(InputTooShort)
      else Ok((Header(list, len), rest'))
  }

  /** `Header::decode`. A byte below 0x80 is its own one-byte string and is not consumed. */
  function DecodeHeader(buf: Bytes): (r: Result<(Header, Bytes), DecodeError>)
    ensures r.Ok? ==> IsSuffix(r.value.1, buf) && r.value.0.payloadLength <= |r.value.1|
    ensures buf == [] ==> r == Err(InputTooShort)
  {
    if buf == [] then Err(InputTooShort)
    else
      var b := buf[0];
      var rest := buf[1..];
      if b < 0x80 then
        Ok((Header(false, 1), buf))
      else if b < 0xB8 then
        var len := b - 0x80;
        if len == 1 && rest == [] then Err(InputTooShort)
        else if len == 1 && rest[0] < 0x80 then Err(NonCanonicalSingleByte)
        else if |rest| < len then Err(InputTooShort)
        else Ok((Header(false, len), rest))
      else if b < 0xC0 then
        DecodeLongHeader(false, b - 0xB7, rest)
      else if b < 0xF8 then
        var len := b - 0xC0;
        if |rest| < len then Err(InputTooShort) else Ok((Header(true, len), rest))
      else
        DecodeLongHeader(true, b - 0xF7, rest)
  }

  /** A header decodes back from its encoding when the payload it announces follows
      (and a one-byte string payload is not itself a byte below 0x80). */
  lemma HeaderRoundTrip(h: Header, rest: Bytes)
    requires h.payloadLength <= |rest|
    requires !h.list && h.payloadLength == 1 ==> rest[0] >= 0x80
    ensures DecodeHeader(EncodeHeader(h) + rest) == Ok((h, rest))
  {
    var enc := EncodeHeader(h);
    var buf := enc + rest;
    if h.payloadLength < 56 {
      assert buf[1..] == rest;
    } else {
      var be := BeBytes(h.payloadLength);
      U64Fits(h.payloadLength);
      BeBytesCanonical(h.payloadLength);
      BeRoundTrip(h.payloadLength);
      assert buf[1..] == be + rest;
      assert (be + rest)[..|be|] == be;
      assert (be + rest)[|be|..] == rest;
    }
  }

  // ---------------------------------------------------------------- unsigned integers

  /** `Encodable` for `u8` .. `u64`: zero is the empty string 0x80, a value below 0x80 is
      one byte, anything larger is a string of its minimal big-endian bytes. */
  function EncodeUint(v: U64): (r: Bytes)
    ensures 1 <= |r| <= 9
  {
    if v != 0 && v < 0x80 then [v]
    else
      var be := BeBytes(v);
      U64Fits(v);
      [EMPTY_STRING_CODE + |be|] + be
  }

  /** `Encodable::length` for an unsigned integer. */
  function UintLength(v: U64): (n: nat)
    ensures n == |EncodeUint(v)|
  {
    if v < 0x80 then 1 else 1 + |BeBytes(v)|
  }

  /** The integer decoder shared by `u8` .. `u64`: a string header of at most `width`
      payload bytes with no leading zero. */
  function DecodeUint(buf: Bytes, width: nat): Result<(nat, Bytes), DecodeError>
  {
    match DecodeHeader(buf)
    case Err(e) => Err(e)
    case Ok((h, rest)) =>
      if h.list then Err(UnexpectedList)
      else if h.payloadLength > width then Err(Overflow)
      else if |rest| < h.payloadLength then Err(InputTooShort)
      else if h.payloadLength > 0 && rest[0] == 0 then Err(LeadingZero)
      else Ok((BeValue(rest[..h.payloadLength]), rest[h.payloadLength..]))
  }

  /** A decoded integer fits its width, and decoding consumes a non-empty prefix. */
  lemma DecodeUintBounds(buf: Bytes, width: nat)
    requires DecodeUint(buf, width).Ok?
    ensures DecodeUint(buf, width).value.0 < Pow256(width)
    ensures IsSuffix(DecodeUint(buf, width).value.1, buf) && |DecodeUint(buf, width).value.1| < |buf|
  {
    var (h, rest) := DecodeHeader(buf).value;
    var digits := rest[..h.payloadLength];
    BeValueBound(digits);
    Pow256Monotone(|digits|, width);
    assert buf != [];
    if buf[0] < 0x80 {
      assert DecodeUint(buf, width).value.1 == buf[1..];
    }
  }

  /** `Decodable for u64`. */
  function DecodeU64(buf: Bytes): Result<(U64, Bytes), DecodeError>
  {
    match DecodeUint(buf, 8)
    case Err(e) => Err(e)
    case Ok((v, rest)) =>
      DecodeUintBounds(buf, 8);
      Pow256Eight();
      Ok((v, rest))
  }

  /** Decoding a `u64` consumes a non-empty prefix of the input. */
  lemma DecodeU64Consumes(buf: Bytes)
    requires DecodeU64(buf).Ok?
    ensures IsSuffix(DecodeU64(buf).value.1, buf) && |DecodeU64(buf).value.1| < |buf|
  {
    DecodeUintBounds(buf, 8);
  }

  /** Every integer that fits `width` bytes decodes back from its encoding, leaving
      exactly the bytes that followed it. */
  lemma UintRoundTrip(v: U64, width: nat, rest: Bytes)
    requires 1 <= width <= 8
    requires v < Pow256(width)
    ensures DecodeUint(EncodeUint(v) + rest, width) == Ok((v, rest))
  {
    if v != 0 && v < 0x80 {
      SingleByteUintRoundTrip(v, width, rest);
    } else {
      StringUintRoundTrip(v, width, rest);
    }
  }

  lemma SingleByteUintRoundTrip(v: U64, width: nat, rest: Bytes)
    requires 1 <= width <= 8
    requires 0 < v < 0x80
    ensures DecodeUint(EncodeUint(v) + rest, width) == Ok((v, rest))
  {
    var buf := [v] + rest;
    assert EncodeUint(v) + rest == buf;
    assert DecodeHeader(buf) == Ok((Header(false, 1), buf));
    assert buf[..1] == [v];
    assert BeValue([v]) == BeValue([]) * 256 + v;
    assert buf[1..] == rest;
  }

  lemma StringUintRoundTrip(v: U64, width: nat, rest: Bytes)
    requires 1 <= width <= 8
    requires v < Pow256(width)
    requires v == 0 || v >= 0x80
    ensures DecodeUint(EncodeUint(v) + rest, width) == Ok((v, rest))
  {
    var be := BeBytes(v);
    BeBytesFit(v, width);
    BeBytesCanonical(v);
    BeRoundTrip(v);
    var h := Header(false, |be|);
    var after := be + rest;
    var buf := EncodeHeader(h) + after;
    UintAsString(v);
    assert EncodeUint(v) + rest == buf;
    HeaderRoundTrip(h, after);
    assert after[..|be|] == be;
    assert after[|be|..] == rest;
    UintFromParts(buf, width, h, after);
  }

  /** An integer that is not a single byte below 0x80 is encoded as the string of its
      big-endian bytes, which is itself not such a single byte. */
  lemma UintAsString(v: U64)
    requires v == 0 || v >= 0x80
    ensures |BeBytes(v)| <= 8
    ensures EncodeUint(v) == EncodeHeader(Header(false, |BeBytes(v)|)) + BeBytes(v)
    ensures |BeBytes(v)| == 1 ==> BeBytes(v)[0] >= 0x80
  {
    var be := BeBytes(v);
    U64Fits(v);
    BeRoundTrip(v);
    BeBytesCanonical(v);
    if |be| == 1 {
      assert BeValue(be) == BeValue([]) * 256 + be[0];
    }
  }

  lemma UintFromParts(buf: Bytes, width: nat, h: Header, after: Bytes)
    requires DecodeHeader(buf) == Ok((h, after))
    requires !h.list && h.payloadLength <= width && h.payloadLength <= |after|
    requires h.payloadLength > 0 ==> after[0] != 0
    ensures DecodeUint(buf, width) == Ok((BeValue(after[..h.payloadLength]), after[h.payloadLength..]))
  {
  }

  lemma U64RoundTrip(v: U64, rest: Bytes)
    ensures DecodeU64(EncodeUint(v) + rest) == Ok((v, rest))
  {
    Pow256Eight();
    UintRoundTrip(v, 8, rest);
  }

  // ---------------------------------------------------------------- Vec<u8>

  /** The items of a `Vec<u8>`: each byte encoded as an RLP integer. */
  function EncodeByteItems(xs: seq<Byte>): Bytes
  {
    if xs == [] then [] else EncodeUint(xs[0]) + EncodeByteItems(xs[1..])
  }

  /** `Encodable for Vec<u8>`: a list header over the items. The header's length is a
      `usize` sum and wraps at 2^64. */
  function EncodeByteList(xs: seq<Byte>): Bytes
  {
    var items := EncodeByteItems(xs);
    EncodeHeader(Header(true, |items| % U64_LIMIT)) + items
  }

  /** `Encodable::length` for `Vec<u8>`: the items plus the header over them. */
  function ByteListLength(xs: seq<Byte>): (n: nat)
    ensures |EncodeByteItems(xs)| < U64_LIMIT ==> n == |EncodeByteList(xs)|
  {
    var p := |EncodeByteItems(xs)|;
    p + LengthOfLength(p % U64_LIMIT)
  }

  /** Decodes list items until the payload view is used up. */
  function DecodeByteItems(view: Bytes): Result<seq<Byte>, DecodeError>
    decreases |view|
  {
    if view == [] then Ok([])
    else
      match DecodeUint(view, 1)
      case Err(e) => Err(e)
      case Ok((x, view')) =>
        DecodeUintBounds(view, 1);
        match DecodeByteItems(view')
        case Err(e) => Err(e)
        case Ok(xs) => Ok([x] + xs)
  }

  /** `Decodable for Vec<u8>`: a list header, then items filling exactly its payload. */
  function DecodeByteList(buf: Bytes): (r: Result<(seq<Byte>, Bytes), DecodeError>)
    ensures r.Ok? ==> IsSuffix(r.value.1, buf)
  {
    match DecodeHeader(buf)
    case Err(e) => Err(e)
    case Ok((h, rest)) =>
      if !h.list then Err(UnexpectedString)
      else
        match DecodeByteItems(rest[..h.payloadLength])
        case Err(e) => Err(e)
        case Ok(xs) => Ok((xs, rest[h.payloadLength..]))
  }

  /** `Vec<u8>` as a payload type. */
  const ByteListCodec: Codec<seq<Byte>> := Codec(EncodeByteList, ByteListLength, DecodeByteList)

  lemma {:induction false} ByteItemsRoundTrip(xs: seq<Byte>)
    ensures DecodeByteItems(EncodeByteItems(xs)) == Ok(xs)
  {
    if xs != [] {
      var tail := EncodeByteItems(xs[1..]);
      UintRoundTrip(xs[0], 1, tail);
      ByteItemsRoundTrip(xs[1..]);
      assert [xs[0]] + xs[1..] == xs;
    }
  }

  lemma ByteListRoundTrip(xs: seq<Byte>, rest: Bytes)
    requires |EncodeByteItems(xs)| < U64_LIMIT
    ensures DecodeByteList(EncodeByteList(xs) + rest) == Ok((xs, rest))
  {
    var items := EncodeByteItems(xs);
    var h := Header(true, |items|);
    var buf := EncodeByteList(xs) + rest;
    assert EncodeByteList(xs) == EncodeHeader(h) + items by {
      assert |items| % U64_LIMIT == |items|;
    }
    ByteListDecodesItems(xs, rest, buf);
  }

  lemma ByteListDecodesItems(xs: seq<Byte>, rest: Bytes, buf: Bytes)
    requires |EncodeByteItems(xs)| < U64_LIMIT
    requires buf == EncodeHeader(Header(true, |EncodeByteItems(xs)|)) + EncodeByteItems(xs) + rest
    ensures DecodeByteList(buf) == Ok((xs, rest))
  {
    var items := EncodeByteItems(xs);
    var h := Header(true, |items|);
    var after := items + rest;
    assert buf == EncodeHeader(h) + after;
    HeaderRoundTrip(h, after);
    ByteItemsRoundTrip(xs);
    assert after[..|items|] == items;
    assert after[|items|..] == rest;
    ByteListFromParts(buf, h, after, xs);
  }

  lemma ByteListFromParts(buf: Bytes, h: Header, after: Bytes, xs: seq<Byte>)
    requires h.list && h.payloadLength <= |after|
    requires DecodeHeader(buf) == Ok((h, after))
    requires DecodeByteItems(after[..h.payloadLength]) == Ok(xs)
    ensures DecodeByteList(buf) == Ok((xs, after[h.payloadLength..]))
  {
  }
}
