/**
 * The order libmdbx keeps keys and duplicate values in: byte strings compared
 * lexicographically, a proper prefix before any of its extensions (`memcmp`,
 * then length).
 */
module ByteOrder {
  import opened Common

  /** `a` sorts strictly before `b`. */
  predicate LexLess(a: Bytes, b: Bytes)
  {
    |b| > 0 && (|a| == 0 || a[0] < b[0] || (a[0] == b[0] && LexLess(a[1..], b[1..])))
  }

  lemma {:induction false} LexIrreflexive(a: Bytes)
    ensures !LexLess(a, a)
  {
    if |a| > 0 {
      LexIrreflexive(a[1..]);
    }
  }

  lemma {:induction false} LexTransitive(a: Bytes, b: Bytes, c: Bytes)
    requires LexLess(a, b) && LexLess(b, c)
    ensures LexLess(a, c)
  {
    if |a| > 0 && a[0] == b[0] && b[0] == c[0] {
      LexTransitive(a[1..], b[1..], c[1..]);
    }
  }

  /** Two different byte strings are always ordered one way or the other. */
  lemma {:induction false} LexTotal(a: Bytes, b: Bytes)
    requires a != b
    ensures LexLess(a, b) || LexLess(b, a)
  {
    if |a| > 0 && |b| > 0 && a[0] == b[0] {
      assert a == [a[0]] + a[1..] && b == [b[0]] + b[1..];
      LexTotal(a[1..], b[1..]);
    }
  }

  lemma LexAsymmetric(a: Bytes, b: Bytes)
    requires LexLess(a, b)
    ensures !LexLess(b, a)
  {
    if LexLess(b, a) {
      LexTransitive(a, b, a);
      LexIrreflexive(a);
    }
  }

  /** A database record: an encoded key and a compressed value. */
  datatype Entry = Entry(key: Bytes, value: Bytes)

  /** The order of a dup-sort table: by key, then by value. */
  predicate PairLess(x: Entry, y: Entry)
  {
    LexLess(x.key, y.key) || (x.key == y.key && LexLess(x.value, y.value))
  }

  lemma PairIrreflexive(x: Entry)
    ensures !PairLess(x, x)
  {
    LexIrreflexive(x.key);
    LexIrreflexive(x.value);
  }

  lemma PairTransitive(x: Entry, y: Entry, z: Entry)
    requires PairLess(x, y) && PairLess(y, z)
    ensures PairLess(x, z)
  {
    if LexLess(x.key, y.key) && LexLess(y.key, z.key) {
      LexTransitive(x.key, y.key, z.key);
    } else if x.key == y.key && y.key == z.key {
      LexTransitive(x.value, y.value, z.value);
    }
  }

  lemma PairTotal(x: Entry, y: Entry)
    requires x != y
    ensures PairLess(x, y) || PairLess(y, x)
  {
    if x.key != y.key {
      LexTotal(x.key, y.key);
    } else {
      LexTotal(x.value, y.value);
    }
  }

  lemma PairAsymmetric(x: Entry, y: Entry)
    requires PairLess(x, y)
    ensures !PairLess(y, x)
  {
    if PairLess(y, x) {
      PairTransitive(x, y, x);
      PairIrreflexive(x);
    }
  }
}
