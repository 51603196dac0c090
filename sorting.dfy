/**
 * The orderings search sorts its buckets by, and a sort that stands in for
 * Array.prototype.sort with those comparators.
 */
module Sorting {

  /**
   * Lexicographic order on strings by character code; it stands in for
   * String.prototype.localeCompare.
   */
  predicate StrLe(a: string, b: string)
    decreases |a|
  {
    a == [] || (b != [] && (a[0] < b[0] || (a[0] == b[0] && StrLe(a[1..], b[1..]))))
  }

  lemma {:induction false} StrLeTotal(a: string, b: string)
    ensures StrLe(a, b) || StrLe(b, a)
    decreases |a|
  {
    if a != [] && b != [] && a[0] == b[0] {
      StrLeTotal(a[1..], b[1..]);
    }
  }

  lemma {:induction false} StrLeTrans(a: string, b: string, c: string)
    requires StrLe(a, b) && StrLe(b, c)
    ensures StrLe(a, c)
    decreases |a|
  {
    if a != [] && a[0] == b[0] && b[0] == c[0] {
      StrLeTrans(a[1..], b[1..], c[1..]);
    }
  }

  lemma {:induction false} StrLeAntisymmetric(a: string, b: string)
    requires StrLe(a, b) && StrLe(b, a)
    ensures a == b
    decreases |a|
  {
    if a != [] {
      StrLeAntisymmetric(a[1..], b[1..]);
      assert a == [a[0]] + a[1..] && b == [b[0]] + b[1..];
    }
  }

  /**
   * A sort key compared component by component: a rank (match index or
   * distance), then a field length, then a node id.
   */
  datatype Key = Key(rank: int, length: int, id: string)

  predicate KeyLe(k1: Key, k2: Key)
  {
    || k1.rank < k2.rank
    || (k1.rank == k2.rank && k1.length < k2.length)
    || (k1.rank == k2.rank && k1.length == k2.length && StrLe(k1.id, k2.id))
  }

  lemma KeyLeTotal(k1: Key, k2: Key)
    ensures KeyLe(k1, k2) || KeyLe(k2, k1)
  {
    StrLeTotal(k1.id, k2.id);
  }

  lemma KeyLeTrans(k1: Key, k2: Key, k3: Key)
    requires KeyLe(k1, k2) && KeyLe(k2, k3)
    ensures KeyLe(k1, k3)
  {
    if k1.rank == k2.rank == k3.rank && k1.length == k2.length == k3.length {
      StrLeTrans(k1.id, k2.id, k3.id);
    }
  }

  predicate SortedBy<T>(xs: seq<T>, key: T -> Key)
  {
    forall i, j :: 0 <= i < j < |xs| ==> KeyLe(key(xs[i]), key(xs[j]))
  }

  /** A head that is at most every element of a sorted tail makes a sorted sequence. */
  lemma SortedCons<T>(h: T, t: seq<T>, key: T -> Key)
    requires SortedBy(t, key)
    requires forall j :: 0 <= j < |t| ==> KeyLe(key(h), key(t[j]))
    ensures SortedBy([h] + t, key)
  {
    var r := [h] + t;
    forall i, j | 0 <= i < j < |r| ensures KeyLe(key(r[i]), key(r[j])) {
      if i > 0 {
        assert r[i] == t[i - 1] && r[j] == t[j - 1];
      }
    }
  }

  /** Inserts x before the first element it does not exceed. */
  function Insert<T>(x: T, xs: seq<T>, key: T -> Key): (r: seq<T>)
    ensures multiset(r) == multiset(xs) + multiset{x}
  {
    if xs == [] then [x]
    else if KeyLe(key(x), key(xs[0])) then [x] + xs
    else
      assert xs == [xs[0]] + xs[1..];
      [xs[0]] + Insert(x, xs[1..], key)
  }

  lemma {:induction false} InsertSorted<T>(x: T, xs: seq<T>, key: T -> Key)
    requires SortedBy(xs, key)
    ensures SortedBy(Insert(x, xs, key), key)
  {
    if xs == [] {
    } else if KeyLe(key(x), key(xs[0])) {
      forall j | 0 <= j < |xs| ensures KeyLe(key(x), key(xs[j])) {
        if j > 0 { KeyLeTrans(key(x), key(xs[0]), key(xs[j])); }
      }
      SortedCons(x, xs, key);
    } else {
      KeyLeTotal(key(x), key(xs[0]));
      var t := xs[1..];
      assert SortedBy(t, key) by {
        forall i, j | 0 <= i < j < |t| ensures KeyLe(key(t[i]), key(t[j])) {
          assert t[i] == xs[i + 1] && t[j] == xs[j + 1];
        }
      }
      InsertSorted(x, t, key);
      var rest := Insert(x, t, key);
      forall j | 0 <= j < |rest| ensures KeyLe(key(xs[0]), key(rest[j])) {
        assert rest[j] in multiset(rest);
        if rest[j] != x {
          assert rest[j] in multiset(t);
          var k :| 0 <= k < |t| && t[k] == rest[j];
          assert xs[k + 1] == rest[j];
        }
      }
      SortedCons(xs[0], rest, key);
    }
  }

  /** Array.prototype.sort with a comparator that orders by key: sorted, and a permutation. */
  function SortBy<T>(xs: seq<T>, key: T -> Key): (r: seq<T>)
    ensures SortedBy(r, key)
    ensures multiset(r) == multiset(xs)
  {
    if xs == [] then []
    else
      assert xs == [xs[0]] + xs[1..];
      var rest := SortBy(xs[1..], key);
      InsertSorted(xs[0], rest, key);
      Insert(xs[0], rest, key)
  }
}
