/**
 * `sort_values` on the key columns, as an insertion sort by key. The result
 * is a permutation of the input in non-decreasing key order, it keeps
 * elements of equal key in their input order, and it keeps keys distinct
 * when they were distinct.
 */
module Sorting {
  import opened Grid

  predicate KeyLeq(a: Key, b: Key)
  {
    a == b || KeyLess(a, b)
  }

  predicate SortedBy<T>(s: seq<T>, key: T -> Key)
  {
    forall i, j | 0 <= i < j < |s| :: KeyLeq(key(s[i]), key(s[j]))
  }

  predicate DistinctBy<T>(s: seq<T>, key: T -> Key)
  {
    forall i, j | 0 <= i < j < |s| :: key(s[i]) != key(s[j])
  }

  /** Inserts `x` before the first element whose key is not below its own. */
  function Insert<T>(x: T, s: seq<T>, key: T -> Key): (r: seq<T>)
    ensures multiset(r) == multiset(s) + multiset{x}
  {
    if s == [] then [x]
    else if KeyLeq(key(x), key(s[0])) then [x] + s
    else
      var rest := Insert(x, s[1..], key);
      assert s == [s[0]] + s[1..];
      [s[0]] + rest
  }

  function SortBy<T>(s: seq<T>, key: T -> Key): (r: seq<T>)
    ensures multiset(r) == multiset(s)
  {
    if s == [] then []
    else
      assert s == [s[0]] + s[1..];
      Insert(s[0], SortBy(s[1..], key), key)
  }

  lemma {:induction false} InsertSorted<T>(x: T, s: seq<T>, key: T -> Key)
    requires SortedBy(s, key)
    ensures SortedBy(Insert(x, s, key), key)
  {
    if s != [] && !KeyLeq(key(x), key(s[0])) {
      var rest := Insert(x, s[1..], key);
      InsertSorted(x, s[1..], key);
      forall y | y in rest ensures KeyLeq(key(s[0]), key(y)) {
        assert y in multiset(rest);
        if y != x {
          assert y in multiset(s[1..]);
          var j :| 0 <= j < |s[1..]| && s[1..][j] == y;
          assert s[j + 1] == y;
        }
      }
      SortedCons(s[0], rest, key);
    }
  }

  /** A sorted sequence stays sorted behind an element whose key is below all of its keys. */
  lemma SortedCons<T>(h: T, rest: seq<T>, key: T -> Key)
    requires SortedBy(rest, key)
    requires forall y | y in rest :: KeyLeq(key(h), key(y))
    ensures SortedBy([h] + rest, key)
  {
    var r := [h] + rest;
    forall i, j | 0 <= i < j < |r| ensures KeyLeq(key(r[i]), key(r[j])) {
      if i == 0 {
        assert r[j] == rest[j - 1];
        assert r[j] in rest;
      } else {
        assert r[i] == rest[i - 1] && r[j] == rest[j - 1];
      }
    }
  }

  /** The sorted result is in non-decreasing key order. */
  lemma {:induction false} SortBySorted<T>(s: seq<T>, key: T -> Key)
    ensures SortedBy(SortBy(s, key), key)
  {
    if s != [] {
      SortBySorted(s[1..], key);
      InsertSorted(s[0], SortBy(s[1..], key), key);
    }
  }

  lemma {:induction false} InsertDistinct<T>(x: T, s: seq<T>, key: T -> Key)
    requires DistinctBy(s, key)
    requires forall i | 0 <= i < |s| :: key(s[i]) != key(x)
    ensures DistinctBy(Insert(x, s, key), key)
  {
    if s != [] && !KeyLeq(key(x), key(s[0])) {
      var rest := Insert(x, s[1..], key);
      assert DistinctBy(s[1..], key) by {
        forall i, j | 0 <= i < j < |s[1..]| ensures key(s[1..][i]) != key(s[1..][j]) {
          assert s[1..][i] == s[i + 1] && s[1..][j] == s[j + 1];
        }
      }
      InsertDistinct(x, s[1..], key);
      forall i | 0 <= i < |rest| ensures key(rest[i]) != key(s[0]) {
        var y := rest[i];
        assert y in multiset(rest);
        if y != x {
          assert y in multiset(s[1..]);
          var j :| 0 <= j < |s[1..]| && s[1..][j] == y;
          assert s[j + 1] == y;
        }
      }
      DistinctCons(s[0], rest, key);
    } else if s != [] {
      DistinctCons(x, s, key);
    }
  }

  /** Distinct keys stay distinct behind an element whose key none of them has. */
  lemma DistinctCons<T>(h: T, rest: seq<T>, key: T -> Key)
    requires DistinctBy(rest, key)
    requires forall i | 0 <= i < |rest| :: key(rest[i]) != key(h)
    ensures DistinctBy([h] + rest, key)
  {
    var r := [h] + rest;
    forall i, j | 0 <= i < j < |r| ensures key(r[i]) != key(r[j]) {
      if i == 0 {
        assert r[j] == rest[j - 1];
      } else {
        assert r[i] == rest[i - 1] && r[j] == rest[j - 1];
      }
    }
  }

  /** Sorting keeps distinct keys distinct. */
  lemma {:induction false} SortByDistinct<T>(s: seq<T>, key: T -> Key)
    requires DistinctBy(s, key)
    ensures DistinctBy(SortBy(s, key), key)
  {
    if s != [] {
      var tail := SortBy(s[1..], key);
      assert DistinctBy(s[1..], key) by {
        forall i, j | 0 <= i < j < |s[1..]| ensures key(s[1..][i]) != key(s[1..][j]) {
          assert s[1..][i] == s[i + 1] && s[1..][j] == s[j + 1];
        }
      }
      SortByDistinct(s[1..], key);
      forall i | 0 <= i < |tail| ensures key(tail[i]) != key(s[0]) {
        assert tail[i] in multiset(s[1..]);
        var j :| 0 <= j < |s[1..]| && s[1..][j] == tail[i];
        assert s[j + 1] == tail[i];
      }
      InsertDistinct(s[0], tail, key);
    }
  }

  /** The elements whose key is `k`, in their order in `s`. */
  function WithKey<T>(s: seq<T>, key: T -> Key, k: Key): seq<T>
  {
    if s == [] then []
    else (if key(s[0]) == k then [s[0]] else []) + WithKey(s[1..], key, k)
  }

  lemma WithKeyCons<T>(h: T, rest: seq<T>, key: T -> Key, k: Key)
    ensures WithKey([h] + rest, key, k) == (if key(h) == k then [h] else []) + WithKey(rest, key, k)
  {
    assert ([h] + rest)[1..] == rest;
  }

  /** `x` goes in before every element that shares its key: no element of that key is overtaken. */
  lemma {:induction false} InsertStable<T>(x: T, s: seq<T>, key: T -> Key, k: Key)
    ensures WithKey(Insert(x, s, key), key, k) == (if key(x) == k then [x] else []) + WithKey(s, key, k)
  {
    if s == [] {
      WithKeyCons(x, [], key, k);
      assert [x] + [] == [x];
    } else if KeyLeq(key(x), key(s[0])) {
      WithKeyCons(x, s, key, k);
    } else {
      InsertStable(x, s[1..], key, k);
      assert s == [s[0]] + s[1..];
      ConsKeepsFilter(s[0], Insert(x, s[1..], key), s[1..], if key(x) == k then [x] else [], key, k);
    }
  }

  /** Putting the same head on two sequences keeps a prefix relation between their filters when the head cannot interleave with it. */
  lemma ConsKeepsFilter<T>(h: T, a: seq<T>, b: seq<T>, pre: seq<T>, key: T -> Key, k: Key)
    requires key(h) == k ==> pre == []
    requires WithKey(a, key, k) == pre + WithKey(b, key, k)
    ensures WithKey([h] + a, key, k) == pre + WithKey([h] + b, key, k)
  {
    WithKeyCons(h, a, key, k);
    WithKeyCons(h, b, key, k);
    if key(h) == k {
      assert pre + WithKey(b, key, k) == WithKey(b, key, k);
    } else {
      assert [] + WithKey(a, key, k) == WithKey(a, key, k);
      assert [] + WithKey(b, key, k) == WithKey(b, key, k);
    }
  }

  /** The sort is stable: the elements of any one key come out in their input order. */
  lemma {:induction false} SortByStable<T>(s: seq<T>, key: T -> Key, k: Key)
    ensures WithKey(SortBy(s, key), key, k) == WithKey(s, key, k)
  {
    if s != [] {
      SortByStable(s[1..], key, k);
      InsertStable(s[0], SortBy(s[1..], key), key, k);
    }
  }

  /** Distinct keys in non-decreasing order are strictly ascending. */
  lemma SortedDistinctAscending<T>(s: seq<T>, key: T -> Key)
    requires SortedBy(s, key) && DistinctBy(s, key)
    ensures forall i, j | 0 <= i < j < |s| :: KeyLess(key(s[i]), key(s[j]))
  {
  }
}
