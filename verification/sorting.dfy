/** `Array.prototype.sort` with a numeric comparator `(a, b) => key(a) - key(b)`,
    as used for accuracies, rank distances, hint years and leaderboard scores.
    Keys are exact rationals, plus the `Infinity` year of the Cleveland summary
    hint; `Infinity - Infinity` is `NaN`, which the sort reads as "equal", and
    `Inf` is accordingly equal to itself here. The model sorts by stable
    insertion, as the (stable) JavaScript sort orders equal keys. */
module Sorting {
  import opened Base

  datatype Key = Fin(v: real) | Inf

  predicate KeyLe(a: Key, b: Key) {
    b.Inf? || (a.Fin? && a.v <= b.v)
  }

  /** Non-decreasing by key. */
  predicate SortedBy<T>(s: seq<T>, key: T -> Key) {
    forall i, j :: 0 <= i < j < |s| ==> KeyLe(key(s[i]), key(s[j]))
  }

  /** Places `x` before the first element whose key is not smaller. */
  function Insert<T(==)>(x: T, s: seq<T>, key: T -> Key): (r: seq<T>)
    requires SortedBy(s, key)
    ensures |r| == |s| + 1
    ensures multiset(r) == multiset(s) + multiset{x}
    ensures forall y | y in r :: y == x || y in s
    ensures SortedBy(r, key)
  {
    if |s| == 0 then [x]
    else if KeyLe(key(x), key(s[0])) then [x] + s
    else
      var t := Insert(x, s[1..], key);
      assert s == [s[0]] + s[1..];
      assert forall y | y in t :: KeyLe(key(s[0]), key(y)) by {
        forall y | y in t ensures KeyLe(key(s[0]), key(y)) {
          if y != x {
            var k :| 1 <= k < |s| && s[k] == y;
          }
        }
      }
      assert forall j :: 0 < j < |t| + 1 ==> ([s[0]] + t)[j] == t[j - 1];
      assert forall j :: 0 < j < |t| + 1 ==> ([s[0]] + t)[j] in t;
      [s[0]] + t
  }

  /** `s.sort((a, b) => key(a) - key(b))`: a non-decreasing permutation of `s`. */
  function SortBy<T(==)>(s: seq<T>, key: T -> Key): (r: seq<T>)
    ensures |r| == |s|
    ensures multiset(r) == multiset(s)
    ensures SortedBy(r, key)
  {
    if |s| == 0 then []
    else
      assert s == [s[0]] + s[1..];
      Insert(s[0], SortBy(s[1..], key), key)
  }

  /** Neither key is smaller than the other: the comparator returns 0 or `NaN`. */
  predicate SameKey(a: Key, b: Key) {
    KeyLe(a, b) && KeyLe(b, a)
  }

  /** The elements of `s` whose key equals `k`, in their order in `s`. */
  function KeyClass<T>(s: seq<T>, key: T -> Key, k: Key): seq<T> {
    if |s| == 0 then []
    else (if SameKey(key(s[0]), k) then [s[0]] else []) + KeyClass(s[1..], key, k)
  }

  /** The class of `[a] + t` is `a`'s part followed by the class of `t`. */
  lemma KeyClassCons<T>(a: T, t: seq<T>, key: T -> Key, k: Key)
    ensures KeyClass([a] + t, key, k) == (if SameKey(key(a), k) then [a] else []) + KeyClass(t, key, k)
  {
    assert ([a] + t)[1..] == t;
  }

  /** Inserting `x` puts it ahead of every element of equal key. */
  lemma {:induction false} InsertKeyClass<T>(x: T, s: seq<T>, key: T -> Key, k: Key)
    requires SortedBy(s, key)
    ensures KeyClass(Insert(x, s, key), key, k)
            == (if SameKey(key(x), k) then [x] else []) + KeyClass(s, key, k)
  {
    if |s| == 0 {
    } else if KeyLe(key(x), key(s[0])) {
      KeyClassCons(x, s, key, k);
    } else {
      var t := Insert(x, s[1..], key);
      assert Insert(x, s, key) == [s[0]] + t;
      InsertKeyClass(x, s[1..], key, k);
      KeyClassCons(s[0], t, key, k);
      SwapClasses(x, s[0], KeyClass(s[1..], key, k), key, k);
    }
  }

  /** Two elements of different keys can be taken into a class in either order. */
  lemma SwapClasses<T>(x: T, a: T, rest: seq<T>, key: T -> Key, k: Key)
    requires !KeyLe(key(x), key(a))
    ensures (if SameKey(key(a), k) then [a] else []) + ((if SameKey(key(x), k) then [x] else []) + rest)
            == (if SameKey(key(x), k) then [x] else []) + ((if SameKey(key(a), k) then [a] else []) + rest)
  {
  }

  /** `SortBy` is stable: the elements of any one key keep their order. */
  lemma {:induction false} SortByStable<T>(s: seq<T>, key: T -> Key, k: Key)
    ensures KeyClass(SortBy(s, key), key, k) == KeyClass(s, key, k)
  {
    if |s| > 0 {
      SortByStable(s[1..], key, k);
      InsertKeyClass(s[0], SortBy(s[1..], key), key, k);
    }
  }

  /** What a sorted sequence's first `k` hold has no larger key than anything after. */
  lemma SortedPrefixLowest<T>(s: seq<T>, key: T -> Key, k: nat)
    requires SortedBy(s, key) && k <= |s|
    ensures forall x, y | x in s[..k] && y in s && y !in s[..k] :: KeyLe(key(x), key(y))
  {
    forall x, y | x in s[..k] && y in s && y !in s[..k] ensures KeyLe(key(x), key(y)) {
      var i :| 0 <= i < k && s[..k][i] == x;
      var j :| 0 <= j < |s| && s[j] == y;
      assert j >= k;
    }
  }

  /** `s.sort((a, b) => key(a) - key(b)).slice(0, k)`: `k` elements of `s`
      (all of them when there are fewer), in key order. */
  function Lowest<T(==)>(s: seq<T>, key: T -> Key, k: nat): (r: seq<T>)
    ensures |r| == Min(k, |s|)
    ensures multiset(r) <= multiset(s)
    ensures forall x | x in r :: x in s
    ensures Distinct(s) ==> Distinct(r)
    ensures SortedBy(r, key)
  {
    var sorted := SortBy(s, key);
    var r := SliceTo(sorted, k);
    PrefixMultiset(r, sorted);
    SubMultisetMembers(sorted, s);
    assert Distinct(s) ==> Distinct(r) by {
      if Distinct(s) {
        DistinctSubMultiset(r, s);
      }
    }
    r
  }

  /** ... and they are the ones of least key: nothing left out has a smaller key. */
  lemma LowestAreLowest<T>(s: seq<T>, key: T -> Key, k: nat)
    ensures forall x, y | x in Lowest(s, key, k) && y in s && y !in Lowest(s, key, k) :: KeyLe(key(x), key(y))
  {
    var sorted := SortBy(s, key);
    var r := Lowest(s, key, k);
    assert r == sorted[..|r|];
    SortedPrefixLowest(sorted, key, |r|);
    forall y | y in s ensures y in sorted {
      assert y in multiset(s);
    }
  }
}
