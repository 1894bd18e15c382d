/**
 * The typed cursor over an mdbx table: every operation is one native call whose
 * failure is mapped to `Error::Read`, `Error::Write` or `Error::Delete`, and whose
 * raw entry is decoded with the table's codecs. The `walk*` constructors position
 * the cursor and compute the first item their walker will yield.
 */
module DbCursor {
  import opened Common
  import opened ByteOrder
  import opened Mdbx

  /** A table's key, value and subkey types with their codecs: `Encode`/`Decode` for
      keys, `Compress`/`Decompress` for values, `Encode` for subkeys, and `Ord` on
      keys. Decoding may fail. */
  datatype TableCodec<!K, !V, !S> = TableCodec(
    encodeKey: K -> Bytes,
    decodeKey: Bytes -> Option<K>,
    compress: V -> Bytes,
    decompress: Bytes -> Option<V>,
    encodeSubKey: S -> Bytes,
    keyLess: (K, K) -> bool)

  /** The database errors the cursor reports; the first three carry the native code. */
  datatype Error = Read(code: int) | Write(code: int) | Delete(code: int) | DecodeError

  /** `decoder::<T>`: both halves of a raw entry decoded. */
  function DecodePair<K, V, S>(c: TableCodec<K, V, S>, e: Entry): (r: Result<(K, V), Error>)
    ensures r.Ok? <==> c.decodeKey(e.key).Some? && c.decompress(e.value).Some?
    ensures r.Ok? ==> r.value == (c.decodeKey(e.key).value, c.decompress(e.value).value)
    ensures r.Err? ==> r.error == DecodeError
  {
    match (c.decodeKey(e.key), c.decompress(e.value))
    case (Some(k), Some(v)) => Ok((k, v))
    case _ => Err(DecodeError)
  }

  /** `decode_one::<T>` and `decode_value::<T>`: a raw value decompressed. */
  function DecodeValue<K, V, S>(c: TableCodec<K, V, S>, raw: Bytes): (r: Result<V, Error>)
    ensures r.Ok? <==> c.decompress(raw).Some?
    ensures r.Ok? ==> r.value == c.decompress(raw).value
    ensures r.Err? ==> r.error == DecodeError
  {
    match c.decompress(raw)
    case Some(v) => Ok(v)
    case None => Err(DecodeError)
  }

  /** `Option::transpose`. */
  function Transpose<A>(o: Option<Result<A, Error>>): Result<Option<A>, Error>
  {
    match o
    case None => Ok(None)
    case Some(Ok(a)) => Ok(Some(a))
    case Some(Err(e)) => Err(e)
  }

  /** `Result::transpose`. */
  function Untranspose<A>(r: Result<Option<A>, Error>): Option<Result<A, Error>>
  {
    match r
    case Ok(None) => None
    case Ok(Some(a)) => Some(Ok(a))
    case Err(e) => Some(Err(e))
  }

  /** The two transpositions are inverse to each other. */
  lemma TransposeInverse<A>(o: Option<Result<A, Error>>, r: Result<Option<A>, Error>)
    ensures Untranspose(Transpose(o)) == o
    ensures Transpose(Untranspose(r)) == r
  {
  }

  /** The walker's first item: a found entry decoded, or nothing. */
  function DecodeFound<K, V, S>(c: TableCodec<K, V, S>, found: Option<Entry>): Option<Result<(K, V), Error>>
  {
    match found
    case None => None
    case Some(e) => Some(DecodePair(c, e))
  }

  /** The `decode!` macro: a native failure becomes `Error::Read` with its code, and an
      entry found is decoded; nothing found is `Ok(None)`. */
  function DecodeRead<K, V, S>(c: TableCodec<K, V, S>, native: Result<Option<Entry>, int>): (r: Result<Option<(K, V)>, Error>)
    ensures native.Err? ==> r == Err(Read(native.error))
    ensures native.Ok? && native.value.None? ==> r == Ok(None)
    ensures native.Ok? && native.value.Some? ==>
              r == Transpose(Some(DecodePair(c, native.value.value)))
  {
    match native
    case Err(code) => Err(Read(code))
    case Ok(found) => Transpose(DecodeFound(c, found))
  }

  /** A value-only read: a native failure becomes `Error::Read`, a found value is
      decompressed. */
  function DecodeReadValue<K, V, S>(c: TableCodec<K, V, S>, native: Result<Option<Entry>, int>): (r: Result<Option<V>, Error>)
    ensures native.Err? ==> r == Err(Read(native.error))
    ensures native.Ok? && native.value.None? ==> r == Ok(None)
    ensures native.Ok? && native.value.Some? ==>
              r == Transpose(Some(DecodeValue(c, native.value.value.value)))
  {
    match native
    case Err(code) => Err(Read(code))
    case Ok(None) => Ok(None)
    case Ok(Some(e)) => Transpose(Some(DecodeValue(c, e.value)))
  }

  /** A native write failure becomes `Error::Write` with its code. */
  function WriteError(native: Result<(), int>): (r: Result<(), Error>)
    ensures native.Ok? <==> r.Ok?
    ensures native.Err? ==> r == Err(Write(native.error))
  {
    match native
    case Ok(_) => Ok(())
    case Err(code) => Err(Write(code))
  }

  /** A native delete failure becomes `Error::Delete` with its code. */
  function DeleteError(native: Result<(), int>): (r: Result<(), Error>)
    ensures native.Ok? <==> r.Ok?
    ensures native.Err? ==> r == Err(Delete(native.error))
  {
    match native
    case Ok(_) => Ok(())
    case Err(code) => Err(Delete(code))
  }

  // ------------------------------------------------------------------- walkers

  /** `std::ops::Bound`. */
  datatype Bound<K> = Included(key: K) | Excluded(key: K) | Unbounded

  /** The walkers hold the cursor and yield items from `start` on; only the start item
      is modelled. */
  datatype Walker<K, V> = Walker(start: Option<Result<(K, V), Error>>)
  datatype RangeWalker<K, V> = RangeWalker(start: Option<Result<(K, V), Error>>, startBound: Bound<K>, endBound: Bound<K>)
  datatype ReverseWalker<K, V> = ReverseWalker(start: Option<Result<(K, V), Error>>)
  datatype DupWalker<K, V> = DupWalker(start: Option<Result<(K, V), Error>>)

  /** The check of `walk_range`: an included start with an end bound (included or
      excluded) whose key is below it. */
  predicate RangeIsContradictory<K>(keyLess: (K, K) -> bool, start: Bound<K>, end: Bound<K>)
  {
    start.Included? && (end.Included? || end.Excluded?) && keyLess(end.key, start.key)
  }

  /** Only an included start is ever checked, an unbounded end never rejects, and under
      an irreflexive key order a range whose ends are equal is accepted. */
  lemma RangeCheckProperties<K>(keyLess: (K, K) -> bool, start: Bound<K>, end: Bound<K>)
    ensures RangeIsContradictory(keyLess, start, end) ==> start.Included? && !end.Unbounded?
    ensures (start.Included? && (end.Included? || end.Excluded?) && end.key == start.key &&
             !keyLess(start.key, start.key)) ==> !RangeIsContradictory(keyLess, start, end)
  {
  }

  /** The typed cursor: the native cursor it wraps, the table's codecs, and the
      transaction kind (`RW` when `readWrite`). */
  class Cursor<K, V, S> {
    const inner: NativeCursor
    const codec: TableCodec<K, V, S>
    const readWrite: bool

    ghost predicate Valid()
      reads this, inner
    {
      inner.Valid()
    }

    constructor (inner: NativeCursor, codec: TableCodec<K, V, S>, readWrite: bool)
      requires inner.Valid()
      ensures Valid()
      ensures this.inner == inner && this.codec == codec && this.readWrite == readWrite
    {
      this.inner := inner;
      this.codec := codec;
      this.readWrite := readWrite;
    }

    /** One native get, decoded as by `decode!`. */
    method Get(op: GetOp) returns (r: Result<Option<(K, V)>, Error>)
      requires Valid()
      modifies inner
      ensures Valid() && inner.table == old(inner.table)
      ensures inner.pos == PosAfter(inner.table, old(inner.pos), inner.fault, op)
      ensures r == DecodeRead(codec, GetResult(inner.table, old(inner.pos), inner.fault, op))
    {
      var native := inner.Get(op);
      r := DecodeRead(codec, native);
    }

    /** `first`: the first entry of the table. */
    method First() returns (r: Result<Option<(K, V)>, Error>)
      requires Valid()
      modifies inner
      ensures Valid() && inner.table == old(inner.table)
      ensures inner.pos == PosAfter(inner.table, old(inner.pos), inner.fault, Mdbx.First)
      ensures r == DecodeRead(codec, GetResult(inner.table, old(inner.pos), inner.fault, Mdbx.First))
    {
      r := Get(Mdbx.First);
    }

    /** `seek_exact`: the first entry whose encoded key is that of `key`. */
    method SeekExact(key: K) returns (r: Result<Option<(K, V)>, Error>)
      requires Valid()
      modifies inner
      ensures Valid() && inner.table == old(inner.table)
      ensures inner.pos == PosAfter(inner.table, old(inner.pos), inner.fault, SetKey(codec.encodeKey(key)))
      ensures r == DecodeRead(codec, GetResult(inner.table, old(inner.pos), inner.fault, SetKey(codec.encodeKey(key))))
    {
      r := Get(SetKey(codec.encodeKey(key)));
    }

    /** `seek`: the first entry whose encoded key is at least that of `key`. */
    method Seek(key: K) returns (r: Result<Option<(K, V)>, Error>)
      requires Valid()
      modifies inner
      ensures Valid() && inner.table == old(inner.table)
      ensures inner.pos == PosAfter(inner.table, old(inner.pos), inner.fault, SetRange(codec.encodeKey(key)))
      ensures r == DecodeRead(codec, GetResult(inner.table, old(inner.pos), inner.fault, SetRange(codec.encodeKey(key))))
    {
      r := Get(SetRange(codec.encodeKey(key)));
    }

    /** `next`. */
    method Next() returns (r: Result<Option<(K, V)>, Error>)
      requires Valid()
      modifies inner
      ensures Valid() && inner.table == old(inner.table)
      ensures inner.pos == PosAfter(inner.table, old(inner.pos), inner.fault, Mdbx.Next)
      ensures r == DecodeRead(codec, GetResult(inner.table, old(inner.pos), inner.fault, Mdbx.Next))
    {
      r := Get(Mdbx.Next);
    }

    /** `prev`. */
    method Prev() returns (r: Result<Option<(K, V)>, Error>)
      requires Valid()
      modifies inner
      ensures Valid() && inner.table == old(inner.table)
      ensures inner.pos == PosAfter(inner.table, old(inner.pos), inner.fault, Mdbx.Prev)
      ensures r == DecodeRead(codec, GetResult(inner.table, old(inner.pos), inner.fault, Mdbx.Prev))
    {
      r := Get(Mdbx.Prev);
    }

    /** `last`. */
    method Last() returns (r: Result<Option<(K, V)>, Error>)
      requires Valid()
      modifies inner
      ensures Valid() && inner.table == old(inner.table)
      ensures inner.pos == PosAfter(inner.table, old(inner.pos), inner.fault, Mdbx.Last)
      ensures r == DecodeRead(codec, GetResult(inner.table, old(inner.pos), inner.fault, Mdbx.Last))
    {
      r := Get(Mdbx.Last);
    }

    /** `current`: the entry under the cursor, which does not move; nothing when no
        entry is under it (unpositioned, or left past the last entry by a delete). */
    method Current() returns (r: Result<Option<(K, V)>, Error>)
      requires Valid()
      ensures inner.fault.Some? ==> r == Err(Read(inner.fault.value))
      ensures inner.fault.None? && Under(inner.table, inner.pos).None? ==> r == Ok(None)
      ensures inner.fault.None? && Under(inner.table, inner.pos).Some? ==>
                r == Transpose(Some(DecodePair(codec, inner.table[Under(inner.table, inner.pos).value])))
    {
      var native := inner.GetCurrent();
      r := DecodeRead(codec, native);
    }

    /** `walk`: from `Some(k)` the walker starts where `seek(k)` lands, a native failure
        being returned at once; from `None` it starts with what `first()` returns, a
        failure included. */
    method Walk(startKey: Option<K>) returns (r: Result<Walker<K, V>, Error>)
      requires Valid()
      modifies inner
      ensures Valid() && inner.table == old(inner.table)
      ensures startKey.Some? ==>
                var op := SetRange(codec.encodeKey(startKey.value));
                inner.pos == PosAfter(inner.table, old(inner.pos), inner.fault, op) &&
                (inner.fault.Some? ==> r == Err(Read(inner.fault.value))) &&
                (inner.fault.None? ==>
                   r == Ok(Walker(Untranspose(DecodeRead(codec, GetResult(inner.table, old(inner.pos), inner.fault, op))))))
      ensures startKey.None? ==>
                inner.pos == PosAfter(inner.table, old(inner.pos), inner.fault, Mdbx.First) &&
                r == Ok(Walker(Untranspose(DecodeRead(codec, GetResult(inner.table, old(inner.pos), inner.fault, Mdbx.First)))))
    {
      if startKey.Some? {
        var native := inner.Get(SetRange(codec.encodeKey(startKey.value)));
        if native.Err? {
          return Err(Read(native.error));
        }
        TransposeInverse(DecodeFound(codec, native.value), Ok(None));
        r := Ok(Walker(DecodeFound(codec, native.value)));
      } else {
        var first := First();
        r := Ok(Walker(Untranspose(first)));
      }
    }

    /** `walk_range`: a contradictory range is refused with `Read(2)` before the cursor
        moves; otherwise the walker starts where `seek(s)` lands for an included start
        `s` and at the first entry for an unbounded one, and keeps both bounds. */
    method WalkRange(startBound: Bound<K>, endBound: Bound<K>) returns (r: Result<RangeWalker<K, V>, Error>)
      requires Valid()
      requires !startBound.Excluded?
      modifies inner
      ensures Valid() && inner.table == old(inner.table)
      ensures RangeIsContradictory(codec.keyLess, startBound, endBound) ==>
                r == Err(Read(2)) && inner.pos == old(inner.pos)
      ensures !RangeIsContradictory(codec.keyLess, startBound, endBound) ==>
                var op := if startBound.Included? then SetRange(codec.encodeKey(startBound.key)) else Mdbx.First;
                inner.pos == PosAfter(inner.table, old(inner.pos), inner.fault, op) &&
                (inner.fault.Some? ==> r == Err(Read(inner.fault.value))) &&
                (inner.fault.None? ==>
                   r == Ok(RangeWalker(DecodeFound(codec, EntryAt(inner.table, Find(inner.table, old(inner.pos), op))),
                                       startBound, endBound)))
    {
      if RangeIsContradictory(codec.keyLess, startBound, endBound) {
        return Err(Read(2));
      }
      var op := if startBound.Included? then SetRange(codec.encodeKey(startBound.key)) else Mdbx.First;
      var native := inner.Get(op);
      if native.Err? {
        return Err(Read(native.error));
      }
      r := Ok(RangeWalker(DecodeFound(codec, native.value), startBound, endBound));
    }

    /** `walk_back`: from `Some(k)` the walker starts where `seek(k)` lands (the first
        entry at or after `k`), a native failure being returned at once; from `None` it
        starts with what `last()` returns, a failure included. */
    method WalkBack(startKey: Option<K>) returns (r: Result<ReverseWalker<K, V>, Error>)
      requires Valid()
      modifies inner
      ensures Valid() && inner.table == old(inner.table)
      ensures startKey.Some? ==>
                var op := SetRange(codec.encodeKey(startKey.value));
                inner.pos == PosAfter(inner.table, old(inner.pos), inner.fault, op) &&
                (inner.fault.Some? ==> r == Err(Read(inner.fault.value))) &&
                (inner.fault.None? ==>
                   r == Ok(ReverseWalker(Untranspose(DecodeRead(codec, GetResult(inner.table, old(inner.pos), inner.fault, op))))))
      ensures startKey.None? ==>
                inner.pos == PosAfter(inner.table, old(inner.pos), inner.fault, Mdbx.Last) &&
                r == Ok(ReverseWalker(Untranspose(DecodeRead(codec, GetResult(inner.table, old(inner.pos), inner.fault, Mdbx.Last)))))
    {
      var start: Result<Option<(K, V)>, Error>;
      if startKey.Some? {
        var native := inner.Get(SetRange(codec.encodeKey(startKey.value)));
        if native.Err? {
          return Err(Read(native.error));
        }
        start := Transpose(DecodeFound(codec, native.value));
      } else {
        start := Last();
      }
      r := Ok(ReverseWalker(Untranspose(start)));
    }

    // -------------------------------------------------------- DUPSORT reads

    /** `next_dup`: the next duplicate of the current key. */
    method NextDup() returns (r: Result<Option<(K, V)>, Error>)
      requires Valid() && inner.dupSort
      modifies inner
      ensures Valid() && inner.table == old(inner.table)
      ensures inner.pos == PosAfter(inner.table, old(inner.pos), inner.fault, Mdbx.NextDup)
      ensures r == DecodeRead(codec, GetResult(inner.table, old(inner.pos), inner.fault, Mdbx.NextDup))
    {
      r := Get(Mdbx.NextDup);
    }

    /** `next_no_dup`: the first entry of the next key. */
    method NextNoDup() returns (r: Result<Option<(K, V)>, Error>)
      requires Valid() && inner.dupSort
      modifies inner
      ensures Valid() && inner.table == old(inner.table)
      ensures inner.pos == PosAfter(inner.table, old(inner.pos), inner.fault, Mdbx.NextNoDup)
      ensures r == DecodeRead(codec, GetResult(inner.table, old(inner.pos), inner.fault, Mdbx.NextNoDup))
    {
      r := Get(Mdbx.NextNoDup);
    }

    /** `next_dup_val`: the value of the next duplicate of the current key. */
    method NextDupVal() returns (r: Result<Option<V>, Error>)
      requires Valid() && inner.dupSort
      modifies inner
      ensures Valid() && inner.table == old(inner.table)
      ensures inner.pos == PosAfter(inner.table, old(inner.pos), inner.fault, Mdbx.NextDup)
      ensures r == DecodeReadValue(codec, GetResult(inner.table, old(inner.pos), inner.fault, Mdbx.NextDup))
    {
      var native := inner.Get(Mdbx.NextDup);
      r := DecodeReadValue(codec, native);
    }

    /** `seek_by_key_subkey`: the value of the first duplicate of `key` that is at least
        the encoded `subkey`. */
    method SeekByKeySubkey(key: K, subkey: S) returns (r: Result<Option<V>, Error>)
      requires Valid() && inner.dupSort
      modifies inner
      ensures Valid() && inner.table == old(inner.table)
      ensures var op := GetBothRange(codec.encodeKey(key), codec.encodeSubKey(subkey));
              inner.pos == PosAfter(inner.table, old(inner.pos), inner.fault, op) &&
              r == DecodeReadValue(codec, GetResult(inner.table, old(inner.pos), inner.fault, op))
    {
      var native := inner.Get(GetBothRange(codec.encodeKey(key), codec.encodeSubKey(subkey)));
      r := DecodeReadValue(codec, native);
    }

    /** The start item of a dup walk that searched under the raw key `key`: the value
        found is decoded together with `key`, not with the key of the entry found. */
    static function DupStart(c: TableCodec<K, V, S>, key: Bytes, found: Option<Entry>): Option<Result<(K, V), Error>>
    {
      match found
      case None => None
      case Some(e) => Some(DecodePair(c, Entry(key, e.value)))
    }

    /** `walk_dup`, by its four cases:
        - `(Some(k), Some(s))`: the first duplicate of `k` at or after `s`;
        - `(Some(k), None)`: the first duplicate of `k`;
        - `(None, Some(s))`: like the first case under the first key of the table; when
          `first()` fails its error is returned at once, and on an empty table the walker
          is still built, with `Read(NOT_FOUND)` as its start item;
        - `(None, None)`: what `first()` returns, a failure included. */
    method WalkDup(key: Option<K>, subkey: Option<S>) returns (r: Result<DupWalker<K, V>, Error>)
      requires Valid() && inner.dupSort
      modifies inner
      ensures Valid() && inner.table == old(inner.table)
      ensures key.Some? ==>
                var k := codec.encodeKey(key.value);
                var op := if subkey.Some? then GetBothRange(k, codec.encodeSubKey(subkey.value)) else SetKey(k);
                inner.pos == PosAfter(inner.table, old(inner.pos), inner.fault, op) &&
                (inner.fault.Some? ==> r == Err(Read(inner.fault.value))) &&
                (inner.fault.None? ==>
                   r == Ok(DupWalker(DupStart(codec, k, EntryAt(inner.table, Find(inner.table, old(inner.pos), op))))))
      ensures key.None? && subkey.None? ==>
                inner.pos == PosAfter(inner.table, old(inner.pos), inner.fault, Mdbx.First) &&
                r == Ok(DupWalker(Untranspose(DecodeRead(codec, GetResult(inner.table, old(inner.pos), inner.fault, Mdbx.First)))))
      ensures key.None? && subkey.Some? && inner.fault.Some? ==>
                r == Err(Read(inner.fault.value)) && inner.pos == old(inner.pos)
      ensures key.None? && subkey.Some? && inner.fault.None? && |inner.table| == 0 ==>
                r == Ok(DupWalker(Some(Err(Read(NOT_FOUND)))))
      ensures key.None? && subkey.Some? && inner.fault.None? && |inner.table| > 0 ==>
                var first := inner.table[0];
                match DecodePair(codec, first)
                case Err(e) => r == Err(e) && inner.pos == At(0)
                case Ok((k, _)) =>
                  var op := GetBothRange(codec.encodeKey(k), codec.encodeSubKey(subkey.value));
                  inner.pos == MovedTo(inner.table, At(0), op) &&
                  r == Ok(DupWalker(DupStart(codec, codec.encodeKey(k), EntryAt(inner.table, Find(inner.table, At(0), op)))))
    {
      if key.Some? {
        var k := codec.encodeKey(key.value);
        var op := if subkey.Some? then GetBothRange(k, codec.encodeSubKey(subkey.value)) else SetKey(k);
        var native := inner.Get(op);
        if native.Err? {
          return Err(Read(native.error));
        }
        r := Ok(DupWalker(DupStart(codec, k, native.value)));
      } else if subkey.Some? {
        var first := First();
        if first.Err? {
          return Err(first.error);
        }
        if first.value.None? {
          r := Ok(DupWalker(Some(Err(Read(NOT_FOUND)))));
        } else {
          var k := codec.encodeKey(first.value.value.0);
          var native := inner.Get(GetBothRange(k, codec.encodeSubKey(subkey.value)));
          match native
          case Err(code) =>
            r := Err(Read(code));
          case Ok(found) =>
            r := Ok(DupWalker(DupStart(codec, k, found)));
        }
      } else {
        var first := First();
        r := Ok(DupWalker(Untranspose(first)));
      }
    }

    // ---------------------------------------------------------------- writes

    /** `upsert`: `put` with `UPSERT`; a failure is `Error::Write`. */
    method Upsert(key: K, value: V) returns (r: Result<(), Error>)
      requires Valid() && readWrite
      modifies inner
      ensures Valid()
      ensures var e := Entry(codec.encodeKey(key), codec.compress(value));
              r == WriteError(PutStatus(old(inner.table), inner.dupSort, inner.fault, e, Mdbx.Upsert)) &&
              (r.Ok? ==> inner.table == PutResult(old(inner.table), inner.dupSort, e, Mdbx.Upsert).value &&
                         inner.pos.At? && inner.table[inner.pos.index] == e) &&
              (r.Err? ==> inner.table == old(inner.table) && inner.pos == old(inner.pos))
    {
      var native := inner.Put(codec.encodeKey(key), codec.compress(value), Mdbx.Upsert);
      r := WriteError(native);
    }

    /** `insert`: `put` with `NO_OVERWRITE`; a failure is `Error::Write`. */
    method Insert(key: K, value: V) returns (r: Result<(), Error>)
      requires Valid() && readWrite
      modifies inner
      ensures Valid()
      ensures var e := Entry(codec.encodeKey(key), codec.compress(value));
              r == WriteError(PutStatus(old(inner.table), inner.dupSort, inner.fault, e, NoOverwrite)) &&
              (r.Ok? ==> inner.table == PutResult(old(inner.table), inner.dupSort, e, NoOverwrite).value &&
                         inner.pos.At? && inner.table[inner.pos.index] == e) &&
              (r.Err? ==> inner.table == old(inner.table) && inner.pos == old(inner.pos))
    {
      var native := inner.Put(codec.encodeKey(key), codec.compress(value), NoOverwrite);
      r := WriteError(native);
    }

    /** `append`: `put` with `APPEND`; a failure is `Error::Write`. */
    method Append(key: K, value: V) returns (r: Result<(), Error>)
      requires Valid() && readWrite
      modifies inner
      ensures Valid()
      ensures var e := Entry(codec.encodeKey(key), codec.compress(value));
              r == WriteError(PutStatus(old(inner.table), inner.dupSort, inner.fault, e, Mdbx.Append)) &&
              (r.Ok? ==> inner.table == PutResult(old(inner.table), inner.dupSort, e, Mdbx.Append).value &&
                         inner.pos.At? && inner.table[inner.pos.index] == e) &&
              (r.Err? ==> inner.table == old(inner.table) && inner.pos == old(inner.pos))
    {
      var native := inner.Put(codec.encodeKey(key), codec.compress(value), Mdbx.Append);
      r := WriteError(native);
    }

    /** `delete_current`: `del` with `CURRENT`; a failure is `Error::Delete`. */
    method DeleteCurrent() returns (r: Result<(), Error>)
      requires Valid() && readWrite
      modifies inner
      ensures Valid()
      ensures r == DeleteError(DelStatus(old(inner.table), old(inner.pos), inner.fault, Mdbx.Current))
      ensures r.Ok? ==> inner.table == DelResult(old(inner.table), old(inner.pos), Mdbx.Current).value &&
                        inner.pos == DelPosition(old(inner.table), old(inner.pos), Mdbx.Current)
      ensures r.Err? ==> inner.table == old(inner.table) && inner.pos == old(inner.pos)
    {
      var native := inner.Del(Mdbx.Current);
      r := DeleteError(native);
    }

    /** `delete_current_duplicates`: `del` with `NO_DUP_DATA`; a failure is
        `Error::Delete`. */
    method DeleteCurrentDuplicates() returns (r: Result<(), Error>)
      requires Valid() && readWrite && inner.dupSort
      modifies inner
      ensures Valid()
      ensures r == DeleteError(DelStatus(old(inner.table), old(inner.pos), inner.fault, NoDupData))
      ensures r.Ok? ==> inner.table == DelResult(old(inner.table), old(inner.pos), NoDupData).value &&
                        inner.pos == DelPosition(old(inner.table), old(inner.pos), NoDupData)
      ensures r.Err? ==> inner.table == old(inner.table) && inner.pos == old(inner.pos)
    {
      var native := inner.Del(NoDupData);
      r := DeleteError(native);
    }

    /** `append_dup`: `put` with `APPEND_DUP`; a failure is `Error::Write`. */
    method AppendDup(key: K, value: V) returns (r: Result<(), Error>)
      requires Valid() && readWrite && inner.dupSort
      modifies inner
      ensures Valid()
      ensures var e := Entry(codec.encodeKey(key), codec.compress(value));
              r == WriteError(PutStatus(old(inner.table), inner.dupSort, inner.fault, e, Mdbx.AppendDup)) &&
              (r.Ok? ==> inner.table == PutResult(old(inner.table), inner.dupSort, e, Mdbx.AppendDup).value &&
                         inner.pos.At? && inner.table[inner.pos.index] == e) &&
              (r.Err? ==> inner.table == old(inner.table) && inner.pos == old(inner.pos))
    {
      var native := inner.Put(codec.encodeKey(key), codec.compress(value), Mdbx.AppendDup);
      r := WriteError(native);
    }
  }
}
