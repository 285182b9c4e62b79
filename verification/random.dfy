/** Randomness as data. Every `Math.floor(Math.random() * n)` of the source is
    read from an explicit sequence of draws: the k-th draw of a step is reduced
    modulo the current pool size (a missing draw reads as 0). Every index below
    `n` is reachable this way, so a contract that holds for all draw sequences
    holds for every outcome the browser can produce.

    Two primitives use the draws: the in-place Fisher-Yates `shuffle` of
    mod/js/utils.js (copied verbatim into every variant), and the
    "pick an index, push it, splice it out" loop of `generateOptions`. */
module Random {
  import opened Base

  /** The index chosen by the k-th draw from a pool of `n` candidates. */
  function Pick(draws: seq<nat>, k: nat, n: nat): (j: nat)
    requires n > 0
    ensures j < n
  {
    if k < |draws| then draws[k] % n else 0
  }

  /** Every index of the pool is the outcome of some draw sequence. */
  lemma PickReachesEveryIndex(k: nat, n: nat, j: nat)
    requires j < n
    ensures exists draws: seq<nat> :: Pick(draws, k, n) == j
  {
    var draws := seq(k + 1, _ => j);
    assert Pick(draws, k, n) == j;
  }

  /** `[a[i], a[j]] = [a[j], a[i]]`. */
  function Swap<T>(a: seq<T>, i: nat, j: nat): (r: seq<T>)
    requires i < |a| && j < |a|
    ensures |r| == |a|
    ensures multiset(r) == multiset(a)
    ensures r[i] == a[j] && r[j] == a[i]
    ensures forall k :: 0 <= k < |a| && k != i && k != j ==> r[k] == a[k]
  {
    a[i := a[j]][j := a[i]]
  }

  /** The shuffle loop from counter `i` down to 1; `k` counts the draws used so far. */
  function ShuffleDown<T>(a: seq<T>, i: nat, draws: seq<nat>, k: nat): (r: seq<T>)
    requires i < |a|
    ensures |r| == |a|
    ensures multiset(r) == multiset(a)
    decreases i
  {
    if i == 0 then a
    else ShuffleDown(Swap(a, i, Pick(draws, k, i + 1)), i - 1, draws, k + 1)
  }

  /** `shuffle(array)`: a permutation of its input. */
  function Shuffle<T>(a: seq<T>, draws: seq<nat>): (r: seq<T>)
    ensures |r| == |a|
    ensures multiset(r) == multiset(a)
  {
    if |a| == 0 then a else ShuffleDown(a, |a| - 1, draws, 0)
  }

  /** The draw-and-splice loop of `generateOptions`:
      `while (chosen.length < want && pool.length > 0) { i = pick; chosen.push(pool[i]); pool.splice(i, 1) }`.
      It takes `want` elements without replacement, or the whole pool when it is shorter. */
  function Sample<T(==)>(pool: seq<T>, want: int, draws: seq<nat>, k: nat): (r: seq<T>)
    ensures multiset(r) <= multiset(pool)
    ensures want <= 0 ==> |r| == 0
    ensures 0 <= want <= |pool| ==> |r| == want
    ensures want >= |pool| ==> multiset(r) == multiset(pool)
    decreases |pool|
  {
    if want <= 0 || |pool| == 0 then []
    else
      var j := Pick(draws, k, |pool|);
      var left := RemoveAt(pool, j);
      var rest := Sample(left, want - 1, draws, k + 1);
      assert pool[j] in multiset(pool);
      assert multiset(pool) == multiset{pool[j]} + multiset(left);
      assert multiset([pool[j]] + rest) == multiset{pool[j]} + multiset(rest);
      [pool[j]] + rest
  }

  /** Shuffling neither adds nor loses an element. */
  lemma ShuffleMembers<T>(a: seq<T>, draws: seq<nat>)
    ensures forall x :: x in Shuffle(a, draws) <==> x in a
  {
    forall x ensures x in Shuffle(a, draws) <==> x in a {
      assert x in Shuffle(a, draws) <==> x in multiset(Shuffle(a, draws));
      assert x in a <==> x in multiset(a);
    }
  }

  lemma ShuffleKeepsDistinct<T>(a: seq<T>, draws: seq<nat>)
    requires Distinct(a)
    ensures Distinct(Shuffle(a, draws))
  {
    DistinctSubMultiset(Shuffle(a, draws), a);
  }

  lemma SampleKeepsDistinct<T>(pool: seq<T>, want: int, draws: seq<nat>, k: nat)
    requires Distinct(pool)
    ensures Distinct(Sample(pool, want, draws, k))
  {
    DistinctSubMultiset(Sample(pool, want, draws, k), pool);
  }

  /** `ranks = [x, ...others]; shuffle(ranks)`: the answer among the decoys in random order. */
  function WithAnswer<T(==)>(x: T, others: seq<T>, draws: seq<nat>): (r: seq<T>)
    requires Distinct(others) && x !in others
    ensures |r| == |others| + 1
    ensures x in r && Distinct(r)
    ensures forall y | y in r :: y == x || y in others
  {
    DistinctConcat([x], others);
    ShuffleKeepsDistinct([x] + others, draws);
    ShuffleMembers([x] + others, draws);
    Shuffle([x] + others, draws)
  }

  /** `a = pool[pick]; rest = pool.filter(y => y !== a); b = rest[pick]`: two
      different elements of a duplicate-free pool. */
  function TwoFrom<T(==)>(pool: seq<T>, draws: seq<nat>): (r: seq<T>)
    requires Distinct(pool) && |pool| >= 2
    ensures |r| == 2 && r[0] != r[1] && Distinct(r)
    ensures forall y | y in r :: y in pool
  {
    var i := Pick(draws, 0, |pool|);
    var first := pool[i];
    var other := if i == 0 then 1 else 0;
    DistinctIndices(pool, Min(i, other), Max(i, other));
    var rest := Filter(pool, y => y != first);
    assert pool[other] in rest;
    var second := rest[Pick(draws, 1, |rest|)];
    assert second in rest;
    DistinctConcat([first], [second]);
    assert [first] + [second] == [first, second];
    [first, second]
  }
}
