/** Small sequence vocabulary shared by every part of the quiz engine model:
    an `Option` for JavaScript's `undefined`/`null`, duplicate-freedom stated
    through multisets, filtering, index removal (`Array.prototype.splice(i, 1)`),
    integer ranges (`Array.from({length: n}, (_, i) => i + lo)`) and the
    JavaScript `slice(0, end)` clamp. */
module Base {

  datatype Option<+T> = None | Some(value: T)

  /** No element occurs twice. */
  predicate Distinct<T(==)>(s: seq<T>) {
    forall x | x in s :: multiset(s)[x] == 1
  }

  function Min(a: int, b: int): int { if a <= b then a else b }
  function Max(a: int, b: int): int { if a <= b then b else a }
  function Abs(x: int): nat { if x < 0 then -x else x }

  /** `s.filter(p)`. */
  function Filter<T(==)>(s: seq<T>, p: T -> bool): (r: seq<T>)
    ensures forall x | x in r :: x in s && p(x)
    ensures forall x | x in s && p(x) :: x in r
    ensures multiset(r) <= multiset(s)
    ensures |r| <= |s|
  {
    if |s| == 0 then []
    else
      assert s == [s[0]] + s[1..];
      (if p(s[0]) then [s[0]] else []) + Filter(s[1..], p)
  }

  /** `s.splice(i, 1)`: the sequence without position `i`. */
  function RemoveAt<T(==)>(s: seq<T>, i: nat): (r: seq<T>)
    requires i < |s|
    ensures |r| == |s| - 1
    ensures multiset(r) == multiset(s) - multiset{s[i]}
  {
    assert s == s[..i] + [s[i]] + s[i+1..];
    s[..i] + s[i+1..]
  }

  /** The integers lo, lo+1, ..., hi-1. */
  function Range(lo: int, hi: int): (r: seq<int>)
    ensures lo <= hi ==> |r| == hi - lo
    ensures hi <= lo ==> |r| == 0
    ensures forall k :: 0 <= k < |r| ==> r[k] == lo + k
    ensures forall x :: x in r <==> lo <= x < hi
  {
    if hi <= lo then []
    else
      var r := seq(hi - lo, k => lo + k);
      IotaMembers(lo, hi, r);
      r
  }

  /** Every integer of `[lo, hi)` sits in a sequence listing them in order. */
  lemma IotaMembers(lo: int, hi: int, r: seq<int>)
    requires lo <= hi && |r| == hi - lo
    requires forall k :: 0 <= k < |r| ==> r[k] == lo + k
    ensures forall x | lo <= x < hi :: x in r
  {
    forall x | lo <= x < hi ensures x in r {
      assert r[x - lo] == x;
    }
  }

  /** JavaScript `s.slice(0, end)`: a negative `end` counts from the back. */
  function SliceTo<T>(s: seq<T>, end: int): (r: seq<T>)
    ensures 0 <= end <= |s| ==> |r| == end
    ensures end >= |s| ==> r == s
    ensures r <= s
  {
    var e := if end < 0 then Max(|s| + end, 0) else Min(end, |s|);
    s[..e]
  }

  lemma DistinctRange(lo: int, hi: int)
    ensures Distinct(Range(lo, hi))
    decreases hi - lo
  {
    if lo < hi {
      DistinctRange(lo + 1, hi);
      assert Range(lo, hi) == [lo] + Range(lo + 1, hi) by {
        assert forall k :: 0 <= k < hi - lo ==> Range(lo, hi)[k] == ([lo] + Range(lo + 1, hi))[k];
      }
      assert lo !in Range(lo + 1, hi);
      forall x | x in Range(lo, hi) ensures multiset(Range(lo, hi))[x] == 1 {
        if x != lo { assert x in Range(lo + 1, hi); }
      }
    }
  }

  /** Anything whose multiset lies under a duplicate-free sequence is duplicate-free. */
  lemma DistinctSubMultiset<T>(a: seq<T>, b: seq<T>)
    requires Distinct(b)
    requires multiset(a) <= multiset(b)
    ensures Distinct(a)
  {
    forall x | x in a ensures multiset(a)[x] == 1 {
      assert x in multiset(a);
      assert x in multiset(b);
      assert x in b;
    }
  }

  lemma DistinctFilter<T>(s: seq<T>, p: T -> bool)
    requires Distinct(s)
    ensures Distinct(Filter(s, p))
  {
    DistinctSubMultiset(Filter(s, p), s);
  }

  lemma DistinctFilterWhen<T>(s: seq<T>, p: T -> bool)
    ensures Distinct(s) ==> Distinct(Filter(s, p))
  {
    if Distinct(s) {
      DistinctFilter(s, p);
    }
  }

  /** Two duplicate-free sequences with no common element concatenate to a duplicate-free one. */
  lemma DistinctConcat<T>(a: seq<T>, b: seq<T>)
    requires Distinct(a) && Distinct(b)
    requires forall x | x in a :: x !in b
    ensures Distinct(a + b)
  {
    assert multiset(a + b) == multiset(a) + multiset(b);
    forall x | x in a + b ensures multiset(a + b)[x] == 1 {
      if x in a {
        assert x !in multiset(b);
      } else {
        assert x !in multiset(a);
      }
    }
  }

  /** A duplicate-free sequence has as many elements as its set. */
  lemma DistinctCard<T>(s: seq<T>)
    requires Distinct(s)
    ensures |set x | x in s| == |s|
  {
    if |s| > 0 {
      var t := s[1..];
      HeadNotInTail(s);
      DistinctSubMultiset(t, s);
      DistinctCard(t);
      assert (set x | x in s) == {s[0]} + (set x | x in t);
    }
  }

  /** A duplicate-free sequence whose elements all lie in `e` is no longer than `e`. */
  lemma DistinctWithin<T>(s: seq<T>, e: set<T>)
    requires Distinct(s)
    requires forall x | x in s :: x in e
    ensures |s| <= |e|
  {
    DistinctCard(s);
    var elems := set x | x in s;
    assert elems <= e;
    SubsetCard(elems, e);
  }

  lemma SubsetCard<T>(a: set<T>, b: set<T>)
    requires a <= b
    ensures |a| <= |b|
  {
    if a != {} {
      var x :| x in a;
      SubsetCard(a - {x}, b - {x});
    }
  }

  /** A sequence has at least as many positions as distinct elements. */
  lemma SeqSetCard<T>(s: seq<T>)
    ensures |set x | x in s| <= |s|
  {
    if |s| > 0 {
      SeqSetCard(s[1..]);
      assert (set x | x in s) == {s[0]} + (set x | x in s[1..]);
    }
  }

  /** A sequence holding two different elements has at least two positions. */
  lemma TwoMembers<T>(s: seq<T>, a: T, b: T)
    requires a in s && b in s && a != b
    ensures |s| >= 2
  {
    SeqSetCard(s);
    SubsetCard({a, b}, set x | x in s);
  }

  /** In a duplicate-free sequence the head does not recur in the tail, and the
      tail is duplicate-free. */
  lemma HeadNotInTail<T>(s: seq<T>)
    requires |s| > 0 && Distinct(s)
    ensures s[0] !in s[1..]
    ensures Distinct(s[1..])
  {
    var t := s[1..];
    assert s == [s[0]] + t;
    assert multiset(s) == multiset{s[0]} + multiset(t);
    assert s[0] in s;
    assert multiset(s)[s[0]] == 1;
    assert multiset(t)[s[0]] == 0;
    DistinctSubMultiset(t, s);
  }

  /** Elements of a sub-multiset are elements. */
  lemma SubMultisetMembers<T>(a: seq<T>, b: seq<T>)
    requires multiset(a) <= multiset(b)
    ensures forall x | x in a :: x in b
  {
    forall x | x in a ensures x in b {
      assert x in multiset(a);
    }
  }

  /** An element found at two positions is counted at least twice. */
  lemma TwoPositions<T>(s: seq<T>, i: nat, j: nat)
    requires i < j < |s|
    ensures multiset(s)[s[i]] >= if s[i] == s[j] then 2 else 1
  {
    assert s == s[..i] + [s[i]] + s[i+1..j] + [s[j]] + s[j+1..];
  }

  /** Positions of a duplicate-free sequence hold different elements. */
  lemma DistinctIndices<T>(s: seq<T>, i: nat, j: nat)
    requires Distinct(s) && i < j < |s|
    ensures s[i] != s[j]
  {
    TwoPositions(s, i, j);
    assert s[i] in s;
  }

  /** A prefix takes no element more often than the whole. */
  lemma PrefixMultiset<T>(p: seq<T>, s: seq<T>)
    requires p <= s
    ensures multiset(p) <= multiset(s)
    ensures forall x | x in p :: x in s
  {
    assert s == p + s[|p|..];
  }

  /** In a duplicate-free sequence, dropping the members of a prefix leaves the suffix. */
  lemma {:induction false} FilterOutPrefix<T>(s: seq<T>, k: nat, p: T -> bool)
    requires Distinct(s) && k <= |s|
    requires forall x | x in s :: p(x) <==> x !in s[..k]
    ensures Filter(s, p) == s[k..]
    decreases |s|
  {
    if |s| > 0 {
      HeadNotInTail(s);
      assert s == [s[0]] + s[1..];
      if k == 0 {
        assert p(s[0]);
        FilterOutPrefix(s[1..], 0, p);
      } else {
        assert s[0] in s[..k];
        assert s[..k] == [s[0]] + s[1..][..k - 1];
        forall x | x in s[1..] ensures p(x) <==> x !in s[1..][..k - 1] {
          assert x != s[0];
        }
        FilterOutPrefix(s[1..], k - 1, p);
      }
    }
  }

  /** A bound on every member is a bound at every position. */
  lemma BoundsAtPositions(s: seq<int>, lo: int, hi: int)
    requires forall x | x in s :: lo <= x <= hi
    ensures forall i :: 0 <= i < |s| ==> lo <= s[i] <= hi
  {
    forall i | 0 <= i < |s| ensures lo <= s[i] <= hi {
      assert s[i] in s;
    }
  }

  /** Dropping the members of a finite set `e` from a duplicate-free sequence
      loses at most |e| elements. */
  lemma {:induction false} FilterOutLength<T>(s: seq<T>, e: set<T>, p: T -> bool)
    requires Distinct(s)
    requires forall x | x in s :: p(x) <==> x !in e
    ensures |Filter(s, p)| + |e| >= |s|
  {
    if |s| > 0 {
      var t := s[1..];
      HeadNotInTail(s);
      assert Filter(s, p) == (if p(s[0]) then [s[0]] else []) + Filter(t, p);
      if p(s[0]) {
        FilterOutLength(t, e, p);
      } else {
        assert s[0] in e;
        forall x | x in t ensures p(x) <==> x !in e - {s[0]} {
          assert x in s;
        }
        FilterOutLength(t, e - {s[0]}, p);
      }
    }
  }

  /** A filter that rejects some element is shorter than its input. */
  lemma {:induction false} FilterRejects<T>(s: seq<T>, p: T -> bool, x: T)
    requires x in s && !p(x)
    ensures |Filter(s, p)| <= |s| - 1
  {
    if s[0] != x {
      FilterRejects(s[1..], p, x);
    }
  }

  lemma MulMonotone(a: int, b: int, t: int)
    requires a <= b && t >= 0
    ensures a * t <= b * t
  {
    assert b * t - a * t == (b - a) * t;
  }

  /** A quotient reaches `k` exactly when the dividend reaches `k` divisors. */
  lemma DivAtLeast(n: int, t: int, k: int)
    requires t > 0
    ensures n / t >= k <==> n >= k * t
  {
    var p := n / t;
    assert n == p * t + n % t;
    if p >= k {
      MulMonotone(k, p, t);
    } else {
      MulMonotone(p + 1, k, t);
      assert (p + 1) * t == p * t + t;
    }
  }

  /** A duplicate-free sequence splits into two duplicate-free parts with no common element. */
  lemma DistinctSplit<T>(s: seq<T>, k: nat)
    requires Distinct(s) && k <= |s|
    ensures Distinct(s[..k]) && Distinct(s[k..])
    ensures forall x | x in s[..k] :: x !in s[k..]
  {
    assert s == s[..k] + s[k..];
    assert multiset(s) == multiset(s[..k]) + multiset(s[k..]);
    DistinctSubMultiset(s[..k], s);
    DistinctSubMultiset(s[k..], s);
    forall x | x in s[..k] ensures x !in s[k..] {
      assert x in multiset(s[..k]);
    }
  }
}
