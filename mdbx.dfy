/**
 * An abstract model of the native libmdbx cursor that the typed cursor wraps.
 *
 * A table is a sequence of entries kept strictly increasing in (key, value)
 * order; outside DUPSORT tables every key appears once. A cursor is a table,
 * a position in it (or none), and the engine failure (if any) that every native
 * call reports. Each native operation is a pure function on that state, and
 * `NativeCursor` applies them in place. This is an abstract model of libmdbx's
 * documented behaviour, not of its B-tree code.
 */
module Mdbx {
  import opened Common
  import opened ByteOrder

  type Table = seq<Entry>

  /** libmdbx's result codes that the operations below report. */
  const NOT_FOUND: int := -30798
  const KEY_EXIST: int := -30799
  const KEY_MISMATCH: int := -30418
  const NO_DATA: int := 61

  /** Entries strictly increasing in (key, value) order. */
  ghost predicate Sorted(t: Table)
  {
    forall i, j :: 0 <= i < j < |t| ==> PairLess(t[i], t[j])
  }

  /** Each key appears at most once. */
  ghost predicate UniqueKeys(t: Table)
  {
    forall i, j :: 0 <= i < j < |t| ==> t[i].key != t[j].key
  }

  /** The shape of a table: sorted, and without duplicate keys unless it is DUPSORT. */
  ghost predicate WellFormed(t: Table, dupSort: bool)
  {
    Sorted(t) && (!dupSort ==> UniqueKeys(t))
  }

  /** In a sorted table the keys never decrease. */
  lemma KeysOrdered(t: Table, i: nat, j: nat)
    requires Sorted(t) && i <= j < |t|
    ensures !LexLess(t[j].key, t[i].key)
  {
    if i == j {
      LexIrreflexive(t[i].key);
    } else if LexLess(t[i].key, t[j].key) {
      LexAsymmetric(t[i].key, t[j].key);
    } else {
      LexIrreflexive(t[i].key);
    }
  }

  // ------------------------------------------------------------------ searches

  /** The number of leading entries whose key sorts before `k`. */
  function KeyLowerBound(t: Table, k: Bytes): (n: nat)
    ensures n <= |t|
    ensures forall i :: 0 <= i < n ==> LexLess(t[i].key, k)
    ensures n < |t| ==> !LexLess(t[n].key, k)
  {
    if |t| == 0 || !LexLess(t[0].key, k) then 0 else 1 + KeyLowerBound(t[1..], k)
  }

  /** The number of leading entries that sort before `e`. */
  function PairLowerBound(t: Table, e: Entry): (n: nat)
    ensures n <= |t|
    ensures forall i :: 0 <= i < n ==> PairLess(t[i], e)
    ensures n < |t| ==> !PairLess(t[n], e)
  {
    if |t| == 0 || !PairLess(t[0], e) then 0 else 1 + PairLowerBound(t[1..], e)
  }

  /** In a sorted table, no entry from the key lower bound on sorts before `k`. */
  lemma KeyLowerBoundSorted(t: Table, k: Bytes)
    requires Sorted(t)
    ensures forall i :: KeyLowerBound(t, k) <= i < |t| ==> !LexLess(t[i].key, k)
  {
    var n := KeyLowerBound(t, k);
    forall i | n <= i < |t|
      ensures !LexLess(t[i].key, k)
    {
      if i > n && LexLess(t[i].key, k) {
        if LexLess(t[n].key, t[i].key) {
          LexTransitive(t[n].key, t[i].key, k);
        }
      }
    }
  }

  /** In a sorted table, no entry from the pair lower bound on sorts before `e`. */
  lemma PairLowerBoundSorted(t: Table, e: Entry)
    requires Sorted(t)
    ensures forall i :: PairLowerBound(t, e) <= i < |t| ==> !PairLess(t[i], e)
  {
    var n := PairLowerBound(t, e);
    forall i | n <= i < |t|
      ensures !PairLess(t[i], e)
    {
      if i > n && PairLess(t[i], e) {
        PairTransitive(t[n], t[i], e);
      }
    }
  }

  /** The first index from `j` on whose key is not `k` (or `|t|`). */
  function RunEnd(t: Table, k: Bytes, j: nat): (r: nat)
    requires j <= |t|
    ensures j <= r <= |t|
    ensures forall m :: j <= m < r ==> t[m].key == k
    ensures r < |t| ==> t[r].key != k
    decreases |t| - j
  {
    if j == |t| || t[j].key != k then j else RunEnd(t, k, j + 1)
  }

  /** The operations of `mdbx_cursor_get` that the typed cursor uses. */
  datatype GetOp =
    | First
    | Last
    | Next
    | Prev
    | NextDup
    | NextNoDup
    | SetKey(key: Bytes)
    | SetRange(key: Bytes)
    | GetBothRange(key: Bytes, value: Bytes)

  /** Whether the operation steps from the current position (and, finding nothing,
      leaves the cursor where it was) rather than searching the table (and, finding
      nothing, leaves the cursor unpositioned). */
  predicate IsStep(op: GetOp)
  {
    op.Next? || op.Prev? || op.NextDup? || op.NextNoDup?
  }

  /** Where a cursor stands: nowhere yet; on the entry at `index`; or, after a delete,
      just before the entry at `index` (if any), the one that followed the deleted
      entry, whose key was `key`. */
  datatype Position = Unset | At(index: nat) | AfterDelete(index: nat, key: Bytes)

  /** A position inside the table. After a delete the cursor may stand past the last
      entry, and the entry it stands before has a key no smaller than the deleted one. */
  predicate ValidPos(t: Table, pos: Position)
  {
    match pos
    case Unset => true
    case At(i) => i < |t|
    case AfterDelete(i, k) => i <= |t| && (i < |t| ==> !LexLess(t[i].key, k))
  }

  /** The index of the entry under the cursor, if any. */
  function Under(t: Table, pos: Position): (r: Option<nat>)
    requires ValidPos(t, pos)
    ensures r.Some? ==> r.value < |t|
    ensures r.None? <==> pos.Unset? || (pos.AfterDelete? && pos.index == |t|)
  {
    match pos
    case Unset => None
    case At(i) => Some(i)
    case AfterDelete(i, _) => if i < |t| then Some(i) else None
  }

  /** The first index a forward step from a positioned cursor considers: the entry after
      the current one, or, after a delete, the entry that followed the deleted one. */
  function Ahead(pos: Position): nat
    requires !pos.Unset?
  {
    if pos.At? then pos.index + 1 else pos.index
  }

  /** The key a duplicate step stays within: the current entry's, or the deleted one's. */
  function StepKey(t: Table, pos: Position): Bytes
    requires ValidPos(t, pos) && !pos.Unset?
  {
    if pos.At? then t[pos.index].key else pos.key
  }

  function FirstIndex(t: Table): Option<nat>
  {
    if |t| == 0 then None else Some(0)
  }

  function LastIndex(t: Table): Option<nat>
  {
    if |t| == 0 then None else Some(|t| - 1)
  }

  /** The index `op` lands on, or `None` when it finds nothing. An unpositioned cursor
      steps forward from before the first entry and backward from after the last. */
  function Find(t: Table, pos: Position, op: GetOp): (r: Option<nat>)
    requires ValidPos(t, pos)
    ensures r.Some? ==> r.value < |t|
  {
    match op
    case First => FirstIndex(t)
    case Last => LastIndex(t)
    case Next =>
      if pos.Unset? then FirstIndex(t)
      else if Ahead(pos) < |t| then Some(Ahead(pos)) else None
    case Prev =>
      if pos.Unset? then LastIndex(t)
      else if pos.index > 0 then Some(pos.index - 1) else None
    case NextDup =>
      if pos.Unset? then FirstIndex(t)
      else if Ahead(pos) < |t| && t[Ahead(pos)].key == StepKey(t, pos) then Some(Ahead(pos))
      else None
    case NextNoDup =>
      if pos.Unset? then FirstIndex(t)
      else
        var e := RunEnd(t, StepKey(t, pos), Ahead(pos));
        if e < |t| then Some(e) else None
    case SetRange(k) =>
      var n := KeyLowerBound(t, k);
      if n < |t| then Some(n) else None
    case SetKey(k) =>
      var n := KeyLowerBound(t, k);
      if n < |t| && t[n].key == k then Some(n) else None
    case GetBothRange(k, v) =>
      var n := PairLowerBound(t, Entry(k, v));
      if n < |t| && t[n].key == k then Some(n) else None
  }

  /** The position after `op`: on the entry found; where it was when a step finds
      nothing; unpositioned when a search finds nothing. */
  function MovedTo(t: Table, pos: Position, op: GetOp): (r: Position)
    requires ValidPos(t, pos)
    ensures ValidPos(t, r)
  {
    var found := Find(t, pos, op);
    if found.Some? then At(found.value) else if IsStep(op) then pos else Unset
  }

  /** The position after a native call: a failure leaves the cursor where it was. */
  function PosAfter(t: Table, pos: Position, fault: Option<int>, op: GetOp): (r: Position)
    requires ValidPos(t, pos)
    ensures ValidPos(t, r)
  {
    if fault.Some? then pos else MovedTo(t, pos, op)
  }

  function EntryAt(t: Table, i: Option<nat>): Option<Entry>
    requires i.Some? ==> i.value < |t|
  {
    if i.None? then None else Some(t[i.value])
  }

  /** What a native call returns: the failure code, or the entry found (if any). */
  function GetResult(t: Table, pos: Position, fault: Option<int>, op: GetOp): Result<Option<Entry>, int>
    requires ValidPos(t, pos)
  {
    if fault.Some? then Err(fault.value) else Ok(EntryAt(t, Find(t, pos, op)))
  }

  // ------------------------------------------------------ properties of searches

  /** `SetRange(k)` finds the first entry whose key is at least `k`, and nothing when
      every key sorts before `k`. */
  lemma SetRangeFindsLowerBound(t: Table, pos: Position, k: Bytes)
    requires Sorted(t) && ValidPos(t, pos)
    ensures Find(t, pos, SetRange(k)).Some? ==>
              var i := Find(t, pos, SetRange(k)).value;
              !LexLess(t[i].key, k) && forall j :: 0 <= j < i ==> LexLess(t[j].key, k)
    ensures Find(t, pos, SetRange(k)).None? <==> forall j :: 0 <= j < |t| ==> LexLess(t[j].key, k)
  {
    KeyLowerBoundSorted(t, k);
  }

  /** `SetKey(k)` finds an entry exactly when some entry has key `k`, and then the
      first one. */
  lemma SetKeyFindsExact(t: Table, pos: Position, k: Bytes)
    requires Sorted(t) && ValidPos(t, pos)
    ensures Find(t, pos, SetKey(k)).Some? <==> exists j :: 0 <= j < |t| && t[j].key == k
    ensures Find(t, pos, SetKey(k)).Some? ==>
              var i := Find(t, pos, SetKey(k)).value;
              t[i].key == k && forall j :: 0 <= j < i ==> t[j].key != k
  {
    KeyLowerBoundSorted(t, k);
    var n := KeyLowerBound(t, k);
    if exists j :: 0 <= j < |t| && t[j].key == k {
      var j :| 0 <= j < |t| && t[j].key == k;
      LexIrreflexive(k);
      assert n <= j;
    }
    forall j | 0 <= j < n
      ensures t[j].key != k
    {
      LexIrreflexive(k);
    }
  }

  /** `GetBothRange(k, v)` finds the first duplicate of `k` whose value is at least
      `v`, and nothing when `k` has no such duplicate. */
  lemma GetBothRangeFindsDuplicate(t: Table, pos: Position, k: Bytes, v: Bytes)
    requires Sorted(t) && ValidPos(t, pos)
    ensures Find(t, pos, GetBothRange(k, v)).Some? <==>
              exists j :: 0 <= j < |t| && t[j].key == k && !LexLess(t[j].value, v)
    ensures Find(t, pos, GetBothRange(k, v)).Some? ==>
              var i := Find(t, pos, GetBothRange(k, v)).value;
              t[i].key == k && !LexLess(t[i].value, v) &&
              forall j :: 0 <= j < i ==> t[j].key != k || LexLess(t[j].value, v)
  {
    var e := Entry(k, v);
    PairLowerBoundSorted(t, e);
    var n := PairLowerBound(t, e);
    if exists j :: 0 <= j < |t| && t[j].key == k && !LexLess(t[j].value, v) {
      var j :| 0 <= j < |t| && t[j].key == k && !LexLess(t[j].value, v);
      LexIrreflexive(k);
      assert n <= j;
    }
  }

  /** `NextDup` never leaves the current key (after a delete, the deleted entry's key):
      it finds the entry ahead exactly when that entry has this key. */
  lemma NextDupKeepsKey(t: Table, pos: Position)
    requires ValidPos(t, pos) && !pos.Unset?
    ensures Find(t, pos, NextDup).Some? ==> t[Find(t, pos, NextDup).value].key == StepKey(t, pos)
    ensures Find(t, pos, NextDup).Some? <==> Ahead(pos) < |t| && t[Ahead(pos)].key == StepKey(t, pos)
  {
  }

  /** `NextNoDup` moves to the first entry of the next greater key: every entry it
      skips has the current key (after a delete, the deleted entry's key), and the one
      it lands on has a greater key. */
  lemma NextNoDupSkipsKey(t: Table, pos: Position)
    requires Sorted(t) && ValidPos(t, pos) && !pos.Unset?
    ensures Find(t, pos, NextNoDup).Some? ==>
              var k, r := StepKey(t, pos), Find(t, pos, NextNoDup).value;
              Ahead(pos) <= r && LexLess(k, t[r].key) && forall m :: Ahead(pos) <= m < r ==> t[m].key == k
    ensures Find(t, pos, NextNoDup).None? <==> forall m :: Ahead(pos) <= m < |t| ==> t[m].key == StepKey(t, pos)
  {
    var k, a := StepKey(t, pos), Ahead(pos);
    var r := RunEnd(t, k, a);
    if r < |t| {
      if pos.At? {
        KeysOrdered(t, pos.index, r);
      } else if a < r {
        KeysOrdered(t, a, r);
      }
      LexTotal(k, t[r].key);
    }
  }

  // -------------------------------------------------------------------- writes

  /** The write flags of `mdbx_cursor_put` that the typed cursor uses. */
  datatype PutFlag = Upsert | NoOverwrite | Append | AppendDup

  /** The table with `e` inserted at its place in the order. */
  function InsertSorted(t: Table, e: Entry): Table
  {
    var n := PairLowerBound(t, e);
    t[..n] + [e] + t[n..]
  }

  /** The table after an upsert of `e`: outside DUPSORT tables the value of an existing
      key is overwritten; in a DUPSORT table the pair is added unless it is there. */
  function Upserted(t: Table, dupSort: bool, e: Entry): Table
  {
    if dupSort then
      if e in t then t else InsertSorted(t, e)
    else
      var n := KeyLowerBound(t, e.key);
      if n < |t| && t[n].key == e.key then t[n := e] else InsertSorted(t, e)
  }

  /** `mdbx_cursor_put(key, value, flag)`: the new table, or the failure code.
      `Upsert` never fails; `NoOverwrite` refuses a key that is present; `Append`
      refuses a key that sorts before the table's last key, and onto the last key it
      acts as `Upsert`; `AppendDup` refuses a value that does not sort after the last
      duplicate of its key. */
  function PutResult(t: Table, dupSort: bool, e: Entry, flag: PutFlag): Result<Table, int>
  {
    match flag
    case Upsert =>
      Ok(Upserted(t, dupSort, e))
    case NoOverwrite =>
      var n := KeyLowerBound(t, e.key);
      if n < |t| && t[n].key == e.key then Err(KEY_EXIST) else Ok(InsertSorted(t, e))
    case Append =>
      if |t| > 0 && LexLess(e.key, t[|t| - 1].key) then Err(KEY_MISMATCH)
      else if |t| > 0 && t[|t| - 1].key == e.key then Ok(Upserted(t, dupSort, e))
      else Ok(t + [e])
    case AppendDup =>
      var n := KeyLowerBound(t, e.key);
      var end := RunEnd(t, e.key, n);
      if n < end && !LexLess(t[end - 1].value, e.value) then Err(KEY_MISMATCH) else Ok(InsertSorted(t, e))
  }

  /** What a native put returns: the failure code, or success. */
  function PutStatus(t: Table, dupSort: bool, fault: Option<int>, e: Entry, flag: PutFlag): Result<(), int>
  {
    if fault.Some? then Err(fault.value)
    else match PutResult(t, dupSort, e, flag)
      case Err(code) => Err(code)
      case Ok(_) => Ok(())
  }

  /** In a sorted table an entry of the table is found at its lower bound. */
  lemma LowerBoundOfMember(t: Table, e: Entry)
    requires Sorted(t) && e in t
    ensures PairLowerBound(t, e) < |t| && t[PairLowerBound(t, e)] == e
  {
    var j :| 0 <= j < |t| && t[j] == e;
    PairIrreflexive(e);
    PairLowerBoundSorted(t, e);
  }

  /** When no entry has key `k`, the key lower bound does not land on `k`. */
  lemma KeyAbsent(t: Table, k: Bytes)
    requires Sorted(t)
    ensures (KeyLowerBound(t, k) < |t| && t[KeyLowerBound(t, k)].key == k) <==>
            exists x :: x in t && x.key == k
  {
    SetKeyFindsExact(t, Unset, k);
    if exists x :: x in t && x.key == k {
      var x :| x in t && x.key == k;
      var j :| 0 <= j < |t| && t[j] == x;
    }
  }

  lemma InsertSortedProperties(t: Table, e: Entry)
    requires Sorted(t) && e !in t
    ensures Sorted(InsertSorted(t, e))
    ensures forall x :: x in InsertSorted(t, e) <==> x == e || x in t
  {
    InsertSortedOrdered(t, e);
    InsertSortedContents(t, e);
  }

  /** The inserted entry lands between its predecessors and its successors. */
  lemma InsertSortedOrdered(t: Table, e: Entry)
    requires Sorted(t) && e !in t
    ensures Sorted(InsertSorted(t, e))
  {
    var n := PairLowerBound(t, e);
    var r := InsertSorted(t, e);
    PairLowerBoundSorted(t, e);
    assert forall a :: 0 <= a < n ==> r[a] == t[a];
    assert r[n] == e;
    assert forall a :: n < a < |r| ==> r[a] == t[a - 1];
    forall a | n <= a < |t|
      ensures PairLess(e, t[a])
    {
      PairTotal(e, t[a]);
    }
    forall a, b | 0 <= a < b < |r|
      ensures PairLess(r[a], r[b])
    {
      if a < n && b > n {
        PairTransitive(r[a], e, r[b]);
      }
    }
  }

  /** Insertion adds `e` and keeps every other entry. */
  lemma InsertSortedContents(t: Table, e: Entry)
    ensures forall x :: x in InsertSorted(t, e) <==> x == e || x in t
  {
    var n := PairLowerBound(t, e);
    assert t == t[..n] + t[n..];
  }

  /** Inserting a key that is absent keeps the keys unique. */
  lemma InsertKeepsKeysUnique(t: Table, e: Entry)
    requires UniqueKeys(t) && forall x :: x in t ==> x.key != e.key
    ensures UniqueKeys(InsertSorted(t, e))
  {
    var n := PairLowerBound(t, e);
    var r := InsertSorted(t, e);
    assert forall a :: 0 <= a < n ==> r[a] == t[a];
    assert forall a :: n < a < |r| ==> r[a] == t[a - 1];
    forall a, b | 0 <= a < b < |r|
      ensures r[a].key != r[b].key
    {
      if a != n && b != n {
        var a', b' := if a < n then a else a - 1, if b < n then b else b - 1;
        assert r[a] == t[a'] && r[b] == t[b'];
      } else if a == n {
        assert r[b] in t;
      } else {
        assert r[a] in t;
      }
    }
  }

  /** Every successful put leaves a well-formed table that holds the new entry and every
      old entry, except, outside DUPSORT tables, the one whose value it overwrote. */
  lemma PutProperties(t: Table, dupSort: bool, e: Entry, flag: PutFlag)
    requires WellFormed(t, dupSort)
    requires flag == AppendDup ==> dupSort
    ensures PutResult(t, dupSort, e, flag).Ok? ==>
              var t' := PutResult(t, dupSort, e, flag).value;
              WellFormed(t', dupSort) &&
              forall x :: x in t' <==> x == e || (x in t && (dupSort || x.key != e.key))
  {
    var r := PutResult(t, dupSort, e, flag);
    if r.Ok? {
      match flag
      case Upsert =>
        UpsertProperties(t, dupSort, e);
      case NoOverwrite =>
        KeyAbsent(t, e.key);
        InsertSortedProperties(t, e);
        if !dupSort {
          InsertKeepsKeysUnique(t, e);
        }
      case Append =>
        AppendActsAsUpsert(t, dupSort, e);
        UpsertProperties(t, dupSort, e);
      case AppendDup =>
        AppendDupAfterLastDuplicate(t, e);
        UpsertProperties(t, dupSort, e);
    }
  }

  /** An upsert keeps the table well formed, adds the entry, and drops only the entry
      whose value it overwrote outside DUPSORT tables. */
  lemma UpsertProperties(t: Table, dupSort: bool, e: Entry)
    requires WellFormed(t, dupSort)
    ensures var t' := Upserted(t, dupSort, e);
            WellFormed(t', dupSort) &&
            forall x :: x in t' <==> x == e || (x in t && (dupSort || x.key != e.key))
  {
    if dupSort {
      if e !in t {
        InsertSortedProperties(t, e);
      }
    } else {
      UpsertUnique(t, e);
    }
  }

  lemma UpsertUnique(t: Table, e: Entry)
    requires WellFormed(t, false)
    ensures PutResult(t, false, e, Upsert).Ok?
    ensures var t' := PutResult(t, false, e, Upsert).value;
            WellFormed(t', false) && forall x :: x in t' <==> x == e || (x in t && x.key != e.key)
  {
    var n := KeyLowerBound(t, e.key);
    KeyAbsent(t, e.key);
    if n < |t| && t[n].key == e.key {
      var t' := t[n := e];
      forall a, b | 0 <= a < b < |t'|
        ensures PairLess(t'[a], t'[b]) && t'[a].key != t'[b].key
      {
        assert PairLess(t[a], t[b]);
        if a == n || b == n {
          assert t[a].key != t[b].key;
          assert LexLess(t[a].key, t[b].key);
        }
      }
      forall x | x in t && x.key != e.key
        ensures x in t'
      {
        var j :| 0 <= j < |t| && t[j] == x;
        assert t'[j] == x;
      }
      forall x | x in t'
        ensures x == e || (x in t && x.key != e.key)
      {
        var j :| 0 <= j < |t'| && t'[j] == x;
        if j != n {
          assert t[j] == x;
          assert t[j].key != t[n].key;
        }
      }
      assert t'[n] == e;
    } else {
      InsertSortedProperties(t, e);
      InsertKeepsKeysUnique(t, e);
    }
  }

  /** Appending a key greater than the last one keeps the table sorted (and its keys
      unique), since every key of the table sorts before it. */
  lemma AppendLarger(t: Table, e: Entry)
    requires Sorted(t) && (|t| > 0 ==> LexLess(t[|t| - 1].key, e.key))
    ensures WellFormed(t, false) ==> WellFormed(t + [e], false)
    ensures Sorted(t + [e])
    ensures forall x :: x in t ==> LexLess(x.key, e.key)
  {
    forall a | 0 <= a < |t|
      ensures LexLess(t[a].key, e.key)
    {
      KeysOrdered(t, a, |t| - 1);
      if t[a].key != t[|t| - 1].key {
        LexTotal(t[a].key, t[|t| - 1].key);
        LexTransitive(t[a].key, t[|t| - 1].key, e.key);
      }
    }
    LexIrreflexive(e.key);
  }

  /** `Append` fails exactly when some key of the table sorts after the new one, with
      `KEY_MISMATCH`. */
  lemma AppendFailsOnSmallerKey(t: Table, dupSort: bool, e: Entry)
    requires Sorted(t)
    ensures PutResult(t, dupSort, e, Append).Err? <==> exists x :: x in t && LexLess(e.key, x.key)
    ensures PutResult(t, dupSort, e, Append).Err? ==> PutResult(t, dupSort, e, Append).error == KEY_MISMATCH
  {
    if |t| > 0 {
      var last := t[|t| - 1];
      if LexLess(e.key, last.key) {
        assert last in t;
      } else {
        forall x | x in t
          ensures !LexLess(e.key, x.key)
        {
          var a :| 0 <= a < |t| && t[a] == x;
          KeysOrdered(t, a, |t| - 1);
          if LexLess(e.key, x.key) && x.key != last.key {
            LexTotal(x.key, last.key);
            LexTransitive(e.key, x.key, last.key);
          }
        }
      }
    }
  }

  /** Whenever `Append` succeeds it leaves the table `Upsert` would: it is `Upsert`
      restricted to keys no smaller than the last. */
  lemma AppendActsAsUpsert(t: Table, dupSort: bool, e: Entry)
    requires Sorted(t)
    ensures PutResult(t, dupSort, e, Append).Ok? ==>
              PutResult(t, dupSort, e, Append) == PutResult(t, dupSort, e, Upsert)
  {
    if (|t| == 0 || t[|t| - 1].key != e.key) && !(|t| > 0 && LexLess(e.key, t[|t| - 1].key)) {
      if |t| > 0 {
        LexTotal(e.key, t[|t| - 1].key);
      }
      AppendLarger(t, e);
      LexIrreflexive(e.key);
      assert KeyLowerBound(t, e.key) == |t|;
      assert PairLowerBound(t, e) == |t|;
      assert e !in t;
      assert InsertSorted(t, e) == t + [e] by {
        assert t[..|t|] == t;
      }
    }
  }

  /** `AppendDup` fails exactly when the key has a duplicate whose value does not sort
      before the new one, with `KEY_MISMATCH`; whenever it succeeds it leaves the table
      `Upsert` would. */
  lemma AppendDupAfterLastDuplicate(t: Table, e: Entry)
    requires Sorted(t)
    ensures PutResult(t, true, e, AppendDup).Err? <==>
              exists x :: x in t && x.key == e.key && !LexLess(x.value, e.value)
    ensures PutResult(t, true, e, AppendDup).Err? ==> PutResult(t, true, e, AppendDup).error == KEY_MISMATCH
    ensures PutResult(t, true, e, AppendDup).Ok? ==>
              PutResult(t, true, e, AppendDup) == PutResult(t, true, e, Upsert)
  {
    var k := e.key;
    var n := KeyLowerBound(t, k);
    var end := RunEnd(t, k, n);
    KeyLowerBoundSorted(t, k);
    LexIrreflexive(k);
    forall x | x in t && x.key == k && !LexLess(x.value, e.value)
      ensures n < end && !LexLess(t[end - 1].value, e.value)
    {
      var j :| 0 <= j < |t| && t[j] == x;
      if j >= end {
        LexTotal(k, t[end].key);
        KeysOrdered(t, end, j);
      }
      if j < end - 1 && LexLess(t[end - 1].value, e.value) {
        assert PairLess(t[j], t[end - 1]);
        LexTransitive(x.value, t[end - 1].value, e.value);
      }
    }
    if n < end && !LexLess(t[end - 1].value, e.value) {
      assert t[end - 1] in t;
    }
    LexIrreflexive(e.value);
  }

  /** `Upsert` never fails. */
  lemma UpsertSucceeds(t: Table, dupSort: bool, e: Entry)
    ensures PutResult(t, dupSort, e, Upsert).Ok?
    ensures e in PutResult(t, dupSort, e, Upsert).value
  {
    var n := KeyLowerBound(t, e.key);
    if !dupSort && n < |t| && t[n].key == e.key {
      assert t[n := e][n] == e;
    } else if !dupSort || e !in t {
      assert InsertSorted(t, e)[PairLowerBound(t, e)] == e;
    }
  }

  /** `NoOverwrite` fails exactly when the key is already present, with `KEY_EXIST`. */
  lemma NoOverwriteFailsOnExistingKey(t: Table, dupSort: bool, e: Entry)
    requires Sorted(t)
    ensures PutResult(t, dupSort, e, NoOverwrite).Err? <==> exists x :: x in t && x.key == e.key
    ensures PutResult(t, dupSort, e, NoOverwrite).Err? ==> PutResult(t, dupSort, e, NoOverwrite).error == KEY_EXIST
  {
    KeyAbsent(t, e.key);
  }

  // ------------------------------------------------------------------- deletes

  /** The write flags of `mdbx_cursor_del` that the typed cursor uses. */
  datatype DelFlag = Current | NoDupData

  /** The table without the entries whose key is `k`. */
  function RemoveKey(t: Table, k: Bytes): (r: Table)
    ensures forall x :: x in r <==> x in t && x.key != k
    ensures |r| <= |t|
  {
    if |t| == 0 then []
    else if t[0].key == k then RemoveKey(t[1..], k)
    else [t[0]] + RemoveKey(t[1..], k)
  }

  /** `mdbx_cursor_del(flag)`: the new table, or the failure code. An unpositioned cursor
      has nothing to delete (`NO_DATA`), nor has one left past the last entry by a
      delete (`NOT_FOUND`). */
  function DelResult(t: Table, pos: Position, flag: DelFlag): Result<Table, int>
    requires ValidPos(t, pos)
  {
    match Under(t, pos)
    case None => if pos.Unset? then Err(NO_DATA) else Err(NOT_FOUND)
    case Some(i) =>
      match flag
      case Current => Ok(t[..i] + t[i + 1..])
      case NoDupData => Ok(RemoveKey(t, t[i].key))
  }

  /** Where a successful delete leaves the cursor: before the entry that followed the
      deleted ones, remembering their key. */
  function DelPosition(t: Table, pos: Position, flag: DelFlag): Position
    requires ValidPos(t, pos) && Under(t, pos).Some?
  {
    var i := Under(t, pos).value;
    match flag
    case Current => AfterDelete(i, t[i].key)
    case NoDupData => AfterDelete(KeyLowerBound(RemoveKey(t, t[i].key), t[i].key), t[i].key)
  }

  /** What a native delete returns: the failure code, or success. */
  function DelStatus(t: Table, pos: Position, fault: Option<int>, flag: DelFlag): Result<(), int>
    requires ValidPos(t, pos)
  {
    if fault.Some? then Err(fault.value)
    else match DelResult(t, pos, flag)
      case Err(code) => Err(code)
      case Ok(_) => Ok(())
  }

  lemma {:induction false} RemoveKeySorted(t: Table, k: Bytes)
    requires Sorted(t)
    ensures Sorted(RemoveKey(t, k))
    decreases |t|
  {
    if |t| > 0 {
      RemoveKeySorted(t[1..], k);
      var rest := RemoveKey(t[1..], k);
      if t[0].key != k {
        var r := [t[0]] + rest;
        forall a, b | 0 <= a < b < |r|
          ensures PairLess(r[a], r[b])
        {
          if a == 0 {
            assert r[b] == rest[b - 1];
            assert rest[b - 1] in t[1..];
          } else {
            assert r[a] == rest[a - 1] && r[b] == rest[b - 1];
          }
        }
      }
    }
  }

  lemma SubsequenceWellFormed(t: Table, dupSort: bool, i: nat)
    requires WellFormed(t, dupSort) && i < |t|
    ensures WellFormed(t[..i] + t[i + 1..], dupSort)
    ensures forall x :: x in t[..i] + t[i + 1..] <==> x in t && x != t[i]
  {
    var r := t[..i] + t[i + 1..];
    assert forall a :: 0 <= a < i ==> r[a] == t[a];
    assert forall a :: i <= a < |r| ==> r[a] == t[a + 1];
    forall x | x in t && x != t[i]
      ensures x in r
    {
      var j :| 0 <= j < |t| && t[j] == x;
      if j < i {
        assert r[j] == x;
      } else {
        assert r[j - 1] == x;
      }
    }
    forall x | x in r
      ensures x != t[i]
    {
      var j :| 0 <= j < |r| && r[j] == x;
      if j < i {
        assert PairLess(t[j], t[i]);
      } else {
        assert PairLess(t[i], t[j + 1]);
      }
      PairIrreflexive(t[i]);
    }
  }

  /** Every successful delete leaves a well-formed table: `Current` removes exactly the
      entry under the cursor, `NoDupData` exactly the entries with its key. A delete
      fails exactly when no entry is under the cursor. */
  lemma DelProperties(t: Table, dupSort: bool, pos: Position, flag: DelFlag)
    requires WellFormed(t, dupSort) && ValidPos(t, pos)
    ensures DelResult(t, pos, flag).Err? <==> Under(t, pos).None?
    ensures DelResult(t, pos, flag).Ok? ==>
              var t', i := DelResult(t, pos, flag).value, Under(t, pos).value;
              WellFormed(t', dupSort) && ValidPos(t', DelPosition(t, pos, flag)) &&
              forall x :: x in t' <==> x in t && (if flag == Current then x != t[i] else x.key != t[i].key)
  {
    if Under(t, pos).Some? {
      var i := Under(t, pos).value;
      match flag
      case Current =>
        SubsequenceWellFormed(t, dupSort, i);
        if i + 1 < |t| {
          KeysOrdered(t, i, i + 1);
          assert (t[..i] + t[i + 1..])[i] == t[i + 1];
        }
      case NoDupData =>
        RemoveKeySorted(t, t[i].key);
        var r := RemoveKey(t, t[i].key);
        forall a, b | 0 <= a < b < |r| && !dupSort
          ensures r[a].key != r[b].key
        {
          assert PairLess(r[a], r[b]) && r[a] in r && r[b] in r;
          var ia :| 0 <= ia < |t| && t[ia] == r[a];
          var ib :| 0 <= ib < |t| && t[ib] == r[b];
          PairIrreflexive(r[a]);
          assert ia != ib;
        }
    }
  }

  /** A successful delete leaves the cursor just after what it removed: every entry
      before the new position sorts before the deleted entry (with `NoDupData`, before
      its key) and every entry from the position on sorts after it. So a `Next` that
      follows lands on the entry that followed the deleted one. */
  lemma DelLandsAfterDeleted(t: Table, dupSort: bool, pos: Position, flag: DelFlag)
    requires WellFormed(t, dupSort) && ValidPos(t, pos) && Under(t, pos).Some?
    ensures var t', d, j := DelResult(t, pos, flag).value, t[Under(t, pos).value], DelPosition(t, pos, flag).index;
            j <= |t'| &&
            (flag == Current ==>
               (forall m :: 0 <= m < j ==> PairLess(t'[m], d)) && forall m :: j <= m < |t'| ==> PairLess(d, t'[m])) &&
            (flag == NoDupData ==>
               (forall m :: 0 <= m < j ==> LexLess(t'[m].key, d.key)) && forall m :: j <= m < |t'| ==> LexLess(d.key, t'[m].key))
  {
    var i := Under(t, pos).value;
    var k := t[i].key;
    match flag
    case Current =>
      var r := t[..i] + t[i + 1..];
      assert forall m :: 0 <= m < i ==> r[m] == t[m];
      assert forall m :: i <= m < |r| ==> r[m] == t[m + 1];
    case NoDupData =>
      var r := RemoveKey(t, k);
      RemoveKeySorted(t, k);
      KeyLowerBoundSorted(r, k);
      forall m | KeyLowerBound(r, k) <= m < |r|
        ensures LexLess(k, r[m].key)
      {
        assert r[m] in r;
        LexTotal(k, r[m].key);
      }
  }

  // ------------------------------------------------------------- native cursor

  /** A native cursor: the table it reads and writes, its position, whether the table is
      DUPSORT, and the engine failure (if any) that every call reports instead of
      acting. */
  class NativeCursor {
    var table: Table
    var pos: Position
    const dupSort: bool
    const fault: Option<int>

    ghost predicate Valid()
      reads this
    {
      WellFormed(table, dupSort) && ValidPos(table, pos)
    }

    constructor (table: Table, dupSort: bool, fault: Option<int>)
      requires WellFormed(table, dupSort)
      ensures Valid()
      ensures this.table == table && this.dupSort == dupSort && this.fault == fault && pos == Unset
    {
      this.table := table;
      this.dupSort := dupSort;
      this.fault := fault;
      pos := Unset;
    }

    /** `mdbx_cursor_get(op)`: a failure leaves the cursor where it was; otherwise the
        entry found (if any) is returned and the cursor moves as `MovedTo` says. */
    method Get(op: GetOp) returns (r: Result<Option<Entry>, int>)
      requires Valid()
      modifies this
      ensures Valid() && table == old(table)
      ensures r == GetResult(table, old(pos), fault, op)
      ensures pos == PosAfter(table, old(pos), fault, op)
    {
      r := GetResult(table, pos, fault, op);
      if fault.None? {
        pos := MovedTo(table, pos, op);
      }
    }

    /** `mdbx_cursor_get(GET_CURRENT)`: the entry under the cursor. With no entry under
        it (`NO_DATA` or `NOT_FOUND` natively) nothing is returned. */
    method GetCurrent() returns (r: Result<Option<Entry>, int>)
      requires Valid()
      ensures fault.Some? ==> r == Err(fault.value)
      ensures fault.None? && Under(table, pos).None? ==> r == Ok(None)
      ensures fault.None? && Under(table, pos).Some? ==> r == Ok(Some(table[Under(table, pos).value]))
    {
      if fault.Some? {
        r := Err(fault.value);
      } else {
        var under := Under(table, pos);
        if under.None? {
          r := Ok(None);
        } else {
          r := Ok(Some(table[under.value]));
        }
      }
    }

    /** `mdbx_cursor_put(key, value, flag)`: on success the table is `PutResult`'s and the
        cursor is on the new entry; a failure changes nothing. */
    method Put(key: Bytes, value: Bytes, flag: PutFlag) returns (r: Result<(), int>)
      requires Valid()
      requires flag == AppendDup ==> dupSort
      modifies this
      ensures Valid()
      ensures r == PutStatus(old(table), dupSort, fault, Entry(key, value), flag)
      ensures r.Err? ==> table == old(table) && pos == old(pos)
      ensures r.Ok? ==> table == PutResult(old(table), dupSort, Entry(key, value), flag).value &&
                        pos.At? && table[pos.index] == Entry(key, value)
    {
      var e := Entry(key, value);
      if fault.Some? {
        r := Err(fault.value);
        return;
      }
      var outcome := PutResult(table, dupSort, e, flag);
      if outcome.Err? {
        r := Err(outcome.error);
        return;
      }
      PutProperties(table, dupSort, e, flag);
      LowerBoundOfMember(outcome.value, e);
      table := outcome.value;
      pos := At(PairLowerBound(table, e));
      r := Ok(());
    }

    /** `mdbx_cursor_del(flag)`: on success the table is `DelResult`'s and the cursor
        stands where `DelPosition` says; a failure changes nothing. */
    method Del(flag: DelFlag) returns (r: Result<(), int>)
      requires Valid()
      modifies this
      ensures Valid()
      ensures r == DelStatus(old(table), old(pos), fault, flag)
      ensures r.Err? ==> table == old(table) && pos == old(pos)
      ensures r.Ok? ==> table == DelResult(old(table), old(pos), flag).value &&
                        pos == DelPosition(old(table), old(pos), flag)
    {
      if fault.Some? {
        r := Err(fault.value);
        return;
      }
      var outcome := DelResult(table, pos, flag);
      if outcome.Err? {
        r := Err(outcome.error);
        return;
      }
      DelProperties(table, dupSort, pos, flag);
      pos := DelPosition(table, pos, flag);
      table := outcome.value;
      r := Ok(());
    }
  }
}
