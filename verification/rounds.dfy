/** `startNewRound`: which items a round asks, and in which order.

    Items are president indices `0..31`. Round 1 asks every item; rounds 2 and
    3 re-ask the previous round's misses `W`, filled up to 12 and 10 items;
    round 4 asks the six items of lowest accuracy and two more; rounds 5 to 9
    re-ask `W` filled up to eight, preferring items not yet asked in a round
    from 4 on (`column4Presidents`). The drafts 527c, PF3 and mod/js shuffle the
    composed order once more; 526 and 526b keep it. */
module Rounds {
  import opened Base
  import opened Random
  import opened Sorting
  import opened Presidents

  /** `p.totalTrials > 0 ? p.corrects / p.totalTrials : 1`. */
  function Accuracy(s: Stats): (a: real)
    ensures 0.0 <= a
    ensures s.totalTrials == 0 ==> a == 1.0
    ensures s.corrects <= s.totalTrials ==> a <= 1.0
  {
    if s.totalTrials > 0 then
      var a := s.corrects as real / s.totalTrials as real;
      assert a * s.totalTrials as real == s.corrects as real;
      a
    else 1.0
  }

  /** Accuracies compare as the cross products of their counts. */
  lemma AccuracyCrossMultiply(s: Stats, t: Stats)
    requires s.totalTrials > 0 && t.totalTrials > 0
    ensures Accuracy(s) <= Accuracy(t) <==> s.corrects * t.totalTrials <= t.corrects * s.totalTrials
  {
    var a, b := Accuracy(s), Accuracy(t);
    var ts, tt := s.totalTrials as real, t.totalTrials as real;
    var c := ts * tt;
    PositiveProduct(ts, tt);
    ScaledRatio(a, ts, tt, s.corrects as real);
    ScaledRatio(b, tt, ts, t.corrects as real);
    assert b * (tt * ts) == b * c by {
      assert tt * ts == c;
    }
    ScaleMonotone(a, b, c);
    IntProductAsReal(s.corrects, t.totalTrials);
    IntProductAsReal(t.corrects, s.totalTrials);
  }

  lemma PositiveProduct(x: real, y: real)
    requires x > 0.0 && y > 0.0
    ensures x * y > 0.0
  {
  }

  /** A ratio `a` with `a * x == n`, scaled by `x * y`, is `n * y`. */
  lemma ScaledRatio(a: real, x: real, y: real, n: real)
    requires a * x == n
    ensures a * (x * y) == n * y
  {
    assert a * (x * y) == (a * x) * y;
  }

  lemma IntProductAsReal(m: int, n: int)
    ensures (m * n) as real == m as real * n as real
  {
  }

  lemma ScaleMonotone(a: real, b: real, c: real)
    requires c > 0.0
    ensures a <= b <==> a * c <= b * c
  {
    if a <= b {
      assert (b - a) * c >= 0.0;
    } else {
      assert (a - b) * c > 0.0;
    }
  }

  /** The sort key of an item: its accuracy. */
  function AccuracyKey(stats: seq<Stats>): int -> Key {
    i => if 0 <= i < |stats| then Fin(Accuracy(stats[i])) else Inf
  }

  /** The explicit draws consumed while composing one round. */
  datatype RoundDraws = RoundDraws(pick: seq<nat>, fill: seq<nat>, final: seq<nat>)

  /** `Array.from({ length: 32 }, (_, i) => i)` shuffled: every item once. */
  function Round1(d: RoundDraws): (order: seq<int>)
    ensures |order| == N && Distinct(order)
    ensures forall x :: x in order <==> 0 <= x < N
  {
    DistinctRange(0, N);
    ShuffleKeepsDistinct(Range(0, N), d.pick);
    ShuffleMembers(Range(0, N), d.pick);
    Shuffle(Range(0, N), d.pick)
  }

  /** An item index. */
  predicate IsItem(x: int) { 0 <= x < N }

  /** Rounds 2 and 3: `T` of the misses when there are enough, otherwise all
      misses followed by `T - |W|` other items. */
  function Refill(w: seq<int>, t: nat, d: RoundDraws): (order: seq<int>)
    ensures |w| >= t ==> |order| == t && multiset(order) <= multiset(w)
    ensures |w| < t ==> |w| <= |order| <= t && order[..|w|] == w
    ensures |w| < t ==> forall x | x in order[|w|..] :: IsItem(x) && x !in w
  {
    if |w| >= t then
      var picked := SliceTo(Shuffle(w, d.pick), t);
      PrefixMultiset(picked, Shuffle(w, d.pick));
      picked
    else
      var others := Others(w);
      var more := SliceTo(Shuffle(others, d.fill), t - |w|);
      PrefixMultiset(more, Shuffle(others, d.fill));
      ShuffleMembers(others, d.fill);
      assert (w + more)[|w|..] == more;
      w + more
  }

  /** Distinct misses among the items give exactly `T` distinct items. */
  lemma RefillExact(w: seq<int>, t: nat, d: RoundDraws)
    requires Distinct(w) && forall x | x in w :: IsItem(x)
    requires t <= N
    ensures |Refill(w, t, d)| == t
    ensures Distinct(Refill(w, t, d))
    ensures forall x | x in Refill(w, t, d) :: IsItem(x)
  {
    var order := Refill(w, t, d);
    if |w| >= t {
      DistinctSubMultiset(order, w);
      SubMultisetMembers(order, w);
    } else {
      RefillExactTopUp(w, t, d);
    }
  }

  lemma RefillExactTopUp(w: seq<int>, t: nat, d: RoundDraws)
    requires Distinct(w) && forall x | x in w :: IsItem(x)
    requires |w| < t <= N
    ensures |Refill(w, t, d)| == t
    ensures Distinct(Refill(w, t, d))
    ensures forall x | x in Refill(w, t, d) :: IsItem(x)
  {
    var others := Others(w);
    ShuffleKeepsDistinct(others, d.fill);
    var more := SliceTo(Shuffle(others, d.fill), t - |w|);
    PrefixMultiset(more, Shuffle(others, d.fill));
    DistinctSubMultiset(more, Shuffle(others, d.fill));
    assert Refill(w, t, d) == w + more;
    DistinctConcat(w, more);
  }

  /** `Array.from({ length: 32 }, (_, i) => i).filter(i => !w.includes(i))`:
      the items outside `w`, each once. */
  function Others(w: seq<int>): (o: seq<int>)
    ensures forall x :: x in o <==> IsItem(x) && x !in w
    ensures Distinct(o)
    ensures Distinct(w) && (forall x | x in w :: IsItem(x)) ==> |o| >= N - |w|
  {
    var p := i => i !in w;
    DistinctRange(0, N);
    DistinctFilter(Range(0, N), p);
    if Distinct(w) then
      DistinctCard(w);
      FilterOutLength(Range(0, N), (set x | x in w), p);
      Filter(Range(0, N), p)
    else
      Filter(Range(0, N), p)
  }

  /** `accuracy.sort((a, b) => a.accuracy - b.accuracy)`: every item, least
      accurate first, ties in index order. */
  function ByAccuracy(stats: seq<Stats>): (sorted: seq<int>)
    ensures |sorted| == N && Distinct(sorted)
    ensures forall x :: x in sorted <==> IsItem(x)
    ensures SortedBy(sorted, AccuracyKey(stats))
  {
    DistinctRange(0, N);
    var sorted := SortBy(Range(0, N), AccuracyKey(stats));
    DistinctSubMultiset(sorted, Range(0, N));
    assert forall x :: x in sorted <==> x in multiset(Range(0, N));
    sorted
  }

  /** Items of equal accuracy keep their index order. */
  lemma ByAccuracyTiesInIndexOrder(stats: seq<Stats>, k: Key)
    ensures KeyClass(ByAccuracy(stats), AccuracyKey(stats), k) == KeyClass(Range(0, N), AccuracyKey(stats), k)
  {
    SortByStable(Range(0, N), AccuracyKey(stats), k);
  }

  /** `accuracy.slice(0, 6)`: the six least accurate items. */
  function MostMissed(stats: seq<Stats>): (most: seq<int>)
    ensures |most| == 6 && most <= ByAccuracy(stats)
  {
    ByAccuracy(stats)[..6]
  }

  /** No item outside the six is less accurate than any of the six. */
  lemma MostMissedLowest(stats: seq<Stats>)
    requires |stats| == N
    ensures forall x, y | x in MostMissed(stats) && IsItem(y) && y !in MostMissed(stats) ::
              Accuracy(stats[x]) <= Accuracy(stats[y])
  {
    var sorted := ByAccuracy(stats);
    var most := MostMissed(stats);
    forall x, y | x in most && IsItem(y) && y !in most ensures Accuracy(stats[x]) <= Accuracy(stats[y]) {
      var i :| 0 <= i < 6 && most[i] == x;
      var j :| 0 <= j < N && sorted[j] == y;
      assert j >= 6;
      assert sorted[i] == x;
      assert KeyLe(AccuracyKey(stats)(sorted[i]), AccuracyKey(stats)(sorted[j]));
    }
  }

  /** `Math.min(...mostMissed.map(m => Math.abs(presidents[m].rank -
      presidents[i].rank)))`, `Infinity` over no items. A rank is its index plus
      one (`Entry`), so the rank distance is the index distance. */
  function NearestDistance(i: int, ms: seq<int>): (k: Key)
    ensures k.Inf? <==> |ms| == 0
    ensures forall m | m in ms :: KeyLe(k, Fin(Abs(m - i) as real))
    ensures k.Fin? ==> exists m | m in ms :: k.v == Abs(m - i) as real
  {
    if |ms| == 0 then Inf
    else
      assert ms == [ms[0]] + ms[1..];
      var rest := NearestDistance(i, ms[1..]);
      var here := Abs(ms[0] - i) as real;
      if rest.Inf? || here <= rest.v then
        assert ms[0] in ms && Abs(ms[0] - i) as real == here;
        Fin(here)
      else
        assert forall m | m in ms[1..] :: m in ms;
        rest
  }

  /** The closeness key of the round-4 fallback. */
  function NearestKey(most: seq<int>): int -> Key {
    i => NearestDistance(i, most)
  }

  /** The round-4 items left after the six: every other item, by accuracy. */
  function Remaining(stats: seq<Stats>): (rest: seq<int>)
    ensures rest == ByAccuracy(stats)[6..]
  {
    var sorted := ByAccuracy(stats);
    FilterOutPrefix(sorted, 6, i => i !in sorted[..6]);
    Filter(sorted, i => i !in MostMissed(stats))
  }

  /** `remaining.filter(a => !column4Presidents.has(a.index))`. */
  function Unasked(remaining: seq<int>, column4: set<int>): (u: seq<int>)
    ensures forall x :: x in u <==> x in remaining && x !in column4
    ensures |u| <= |remaining|
    ensures Distinct(remaining) ==> Distinct(u)
  {
    DistinctFilterWhen(remaining, i => i !in column4);
    Filter(remaining, i => i !in column4)
  }

  /** The two items round 4 adds after the six, chosen from `remaining` (the
      other items, by accuracy): the two least accurate unasked ones; or the
      single unasked one and the item nearest in rank to the six; or, when
      every item has been asked, the two least accurate. */
  function TwoMore(remaining: seq<int>, most: seq<int>, column4: set<int>, acc: int -> Key): (extra: seq<int>)
    requires |remaining| >= 2 && Distinct(remaining)
    ensures |extra| == 2
  {
    var unasked := Unasked(remaining, column4);
    if |unasked| >= 2 then
      Lowest(unasked, acc, 2)
    else if |unasked| > 0 then
      unasked + Nearest(remaining, unasked, most)
    else
      Lowest(remaining, acc, 2)
  }

  /** The single remaining item nearest in rank to the six, other than `unasked`. */
  function Nearest(remaining: seq<int>, unasked: seq<int>, most: seq<int>): (r: seq<int>)
    requires Distinct(remaining) && |remaining| >= 2 && |unasked| == 1
    ensures |r| == 1
    ensures forall x | x in r :: x in remaining && x !in unasked
  {
    var p := i => i !in unasked;
    FilterOutLength(remaining, {unasked[0]}, p);
    Lowest(Filter(remaining, p), NearestKey(most), 1)
  }

  /** The two added items are different items from `remaining`. */
  lemma TwoMoreFrom(remaining: seq<int>, most: seq<int>, column4: set<int>, acc: int -> Key)
    requires |remaining| >= 2 && Distinct(remaining)
    ensures Distinct(TwoMore(remaining, most, column4, acc))
    ensures forall x | x in TwoMore(remaining, most, column4, acc) :: x in remaining
  {
    if |Unasked(remaining, column4)| == 1 {
      TwoMoreFromNearest(remaining, most, column4, acc);
    }
  }

  lemma TwoMoreFromNearest(remaining: seq<int>, most: seq<int>, column4: set<int>, acc: int -> Key)
    requires |remaining| >= 2 && Distinct(remaining)
    requires |Unasked(remaining, column4)| == 1
    ensures Distinct(TwoMore(remaining, most, column4, acc))
    ensures forall x | x in TwoMore(remaining, most, column4, acc) :: x in remaining
  {
    var unasked := Unasked(remaining, column4);
    var near := Nearest(remaining, unasked, most);
    assert TwoMore(remaining, most, column4, acc) == unasked + near;
    DistinctConcat(unasked, near);
  }

  /** With two or more unasked items, both added items are unasked. */
  lemma TwoMorePrefersUnasked(remaining: seq<int>, most: seq<int>, column4: set<int>, acc: int -> Key)
    requires |remaining| >= 2 && Distinct(remaining)
    ensures |Unasked(remaining, column4)| >= 2 ==>
              forall x | x in TwoMore(remaining, most, column4, acc) :: x !in column4
  {
  }

  /** With at most two unasked items, every one of them is added. */
  lemma TwoMoreTakesAllUnasked(remaining: seq<int>, most: seq<int>, column4: set<int>, acc: int -> Key)
    requires |remaining| >= 2 && Distinct(remaining)
    ensures |Unasked(remaining, column4)| <= 2 ==>
              forall x | x in Unasked(remaining, column4) :: x in TwoMore(remaining, most, column4, acc)
  {
    var unasked := Unasked(remaining, column4);
    if |unasked| == 2 {
      var r := Lowest(unasked, acc, 2);
      assert Distinct(r);
      forall x | x in unasked ensures x in r {
        if x !in r {
          DistinctWithin(r, (set y | y in unasked) - {x});
          DistinctCard(unasked);
        }
      }
    }
  }

  /** The two added unasked items are the least accurate unasked ones. */
  lemma TwoMoreLeastAccurate(remaining: seq<int>, most: seq<int>, column4: set<int>, acc: int -> Key)
    requires |remaining| >= 2 && Distinct(remaining)
    ensures |Unasked(remaining, column4)| >= 2 ==>
              forall x, y | x in TwoMore(remaining, most, column4, acc) && y in Unasked(remaining, column4)
                              && y !in TwoMore(remaining, most, column4, acc) :: KeyLe(acc(x), acc(y))
  {
    LowestAreLowest(Unasked(remaining, column4), acc, 2);
  }

  /** Round 4: the six least accurate items, then `TwoMore`. */
  function Round4(stats: seq<Stats>, column4: set<int>): (order: seq<int>)
    ensures |order| == 8 && order[..6] == MostMissed(stats)
  {
    var most := MostMissed(stats);
    var remaining := Remaining(stats);
    DistinctSubMultiset(remaining, ByAccuracy(stats));
    most + TwoMore(remaining, most, column4, AccuracyKey(stats))
  }

  /** Round 4 asks eight different items. */
  lemma Round4Distinct(stats: seq<Stats>, column4: set<int>)
    ensures Distinct(Round4(stats, column4))
    ensures forall x | x in Round4(stats, column4) :: IsItem(x)
  {
    var sorted := ByAccuracy(stats);
    var most := MostMissed(stats);
    var remaining := Remaining(stats);
    DistinctSplit(sorted, 6);
    var extra := TwoMore(remaining, most, column4, AccuracyKey(stats));
    TwoMoreFrom(remaining, most, column4, AccuracyKey(stats));
    DistinctConcat(most, extra);
    assert Round4(stats, column4) == most + extra;
    assert forall x | x in most + extra :: x in sorted;
  }

  /** Round 4 puts two unasked items after the six whenever there are two. */
  lemma Round4PrefersUnasked(stats: seq<Stats>, column4: set<int>)
    ensures |Unasked(Remaining(stats), column4)| >= 2 ==>
              forall x | x in Round4(stats, column4)[6..] :: x !in column4
  {
    var most := MostMissed(stats);
    var remaining := Remaining(stats);
    DistinctSubMultiset(remaining, ByAccuracy(stats));
    TwoMorePrefersUnasked(remaining, most, column4, AccuracyKey(stats));
    assert Round4(stats, column4)[6..] == TwoMore(remaining, most, column4, AccuracyKey(stats));
  }

  /** `Array.from({ length: 32 }, (_, i) => i).filter(i => !column4Presidents.has(i))`. */
  function NotInColumn4(column4: set<int>): (r: seq<int>)
    ensures Distinct(r)
    ensures forall x :: x in r <==> IsItem(x) && x !in column4
  {
    DistinctRange(0, N);
    DistinctFilter(Range(0, N), i => i !in column4);
    Filter(Range(0, N), i => i !in column4)
  }

  /** `Array.from({ length: 32 }, (_, i) => i).filter(i => !W.includes(i) &&
      !selected.includes(i))`: the items in neither sequence. */
  function Outside(w: seq<int>, selected: seq<int>): (r: seq<int>)
    ensures Distinct(r)
    ensures forall x :: x in r <==> IsItem(x) && x !in w && x !in selected
    ensures |r| + |w| + |selected| >= N
  {
    var p := i => i !in w && i !in selected;
    DistinctRange(0, N);
    DistinctFilter(Range(0, N), p);
    SeqSetCard(w + selected);
    FilterOutLength(Range(0, N), (set x | x in w + selected), p);
    Filter(Range(0, N), p)
  }

  /** The items rounds 5 to 9 add after the misses `w` (fewer than eight): the
      `8 - |w|` least accurate items not yet asked from round 4 on; or all of
      those and the least accurate of the others. */
  function TopUp8(w: seq<int>, stats: seq<Stats>, column4: set<int>): (more: seq<int>)
    requires |w| < 8
    ensures |more| <= 8 - |w|
    ensures forall x | x in more :: IsItem(x) && (x !in column4 || x !in w)
  {
    var need := 8 - |w|;
    var remaining := NotInColumn4(column4);
    if |remaining| >= need then
      Lowest(remaining, AccuracyKey(stats), need)
    else
      remaining + Lowest(Outside(w, remaining), AccuracyKey(stats), need - |remaining|)
  }

  /** Rounds 5 to 9: eight of the misses when there are enough, otherwise all
      misses followed by `TopUp8`. */
  function Round5(w: seq<int>, stats: seq<Stats>, column4: set<int>, d: RoundDraws): (order: seq<int>)
    ensures |w| >= 8 ==> |order| == 8 && multiset(order) <= multiset(w)
    ensures |w| < 8 ==> |w| <= |order| <= 8 && order[..|w|] == w
  {
    if |w| >= 8 then
      var picked := SliceTo(Shuffle(w, d.pick), 8);
      PrefixMultiset(picked, Shuffle(w, d.pick));
      picked
    else
      var more := TopUp8(w, stats, column4);
      assert (w + more)[..|w|] == w;
      w + more
  }

  /** Misses that were all asked from round 4 on top up to exactly eight new, different items. */
  lemma TopUp8Exact(w: seq<int>, stats: seq<Stats>, column4: set<int>)
    requires |w| < 8 && Distinct(w)
    requires forall x | x in w :: x in column4
    ensures |TopUp8(w, stats, column4)| == 8 - |w|
    ensures Distinct(TopUp8(w, stats, column4))
    ensures forall x | x in TopUp8(w, stats, column4) :: IsItem(x) && x !in w
  {
    var need := 8 - |w|;
    var remaining := NotInColumn4(column4);
    if |remaining| < need {
      var extra := Lowest(Outside(w, remaining), AccuracyKey(stats), need - |remaining|);
      DistinctConcat(remaining, extra);
      assert TopUp8(w, stats, column4) == remaining + extra;
    }
  }

  /** Under the same premise, rounds 5 to 9 ask exactly eight different items. */
  lemma Round5Exact(w: seq<int>, stats: seq<Stats>, column4: set<int>, d: RoundDraws)
    requires Distinct(w) && forall x | x in w :: IsItem(x) && x in column4
    ensures |Round5(w, stats, column4, d)| == 8
    ensures Distinct(Round5(w, stats, column4, d))
    ensures forall x | x in Round5(w, stats, column4, d) :: IsItem(x)
  {
    var order := Round5(w, stats, column4, d);
    if |w| >= 8 {
      DistinctSubMultiset(order, w);
      SubMultisetMembers(order, w);
    } else {
      var more := TopUp8(w, stats, column4);
      TopUp8Exact(w, stats, column4);
      DistinctConcat(w, more);
      assert order == w + more;
    }
  }

  /** The top-up takes items not yet asked from round 4 on whenever there are enough. */
  lemma TopUp8PrefersNotInColumn4(w: seq<int>, stats: seq<Stats>, column4: set<int>)
    requires |w| < 8
    ensures |NotInColumn4(column4)| >= 8 - |w| ==>
              forall x | x in TopUp8(w, stats, column4) :: x !in column4
  {
  }

  /** Otherwise it takes every one of them. */
  lemma TopUp8TakesAllNotInColumn4(w: seq<int>, stats: seq<Stats>, column4: set<int>)
    requires |w| < 8
    ensures |NotInColumn4(column4)| < 8 - |w| ==>
              forall x | x in NotInColumn4(column4) :: x in TopUp8(w, stats, column4)
  {
  }

  /** The items it takes are the least accurate of those it chooses among. */
  lemma TopUp8LeastAccurate(w: seq<int>, stats: seq<Stats>, column4: set<int>)
    requires |w| < 8
    ensures |NotInColumn4(column4)| >= 8 - |w| ==>
              forall x, y | x in TopUp8(w, stats, column4) && y in NotInColumn4(column4)
                              && y !in TopUp8(w, stats, column4) ::
                KeyLe(AccuracyKey(stats)(x), AccuracyKey(stats)(y))
  {
    LowestAreLowest(NotInColumn4(column4), AccuracyKey(stats), 8 - |w|);
  }

  /** The order of round `round` as the branches of `startNewRound` compose it. */
  function Compose(round: int, w: seq<int>, stats: seq<Stats>, column4: set<int>, d: RoundDraws): (order: seq<int>)
    ensures round == 1 ==> |order| == N && forall x :: x in order <==> IsItem(x)
    ensures round == 4 ==> |order| == 8 && order[..6] == MostMissed(stats)
    ensures round != 1 && round != 4 && |w| >= RoundLength(round) ==>
              |order| == RoundLength(round) && multiset(order) <= multiset(w)
    ensures round != 1 && round != 4 && |w| < RoundLength(round) ==>
              |w| <= |order| <= RoundLength(round) && order[..|w|] == w
  {
    if round == 1 then Round1(d)
    else if round == 2 then Refill(w, 12, d)
    else if round == 3 then Refill(w, 10, d)
    else if round == 4 then Round4(stats, column4)
    else Round5(w, stats, column4, d)
  }

  /** How many items round `round` asks when the misses are well formed. */
  function RoundLength(round: int): nat {
    if round == 1 then 32 else if round == 2 then 12 else if round == 3 then 10 else 8
  }

  /** The items a round starts with and the set of items asked from round 4 on. */
  datatype RoundStart = RoundStart(order: seq<int>, column4: set<int>)

  /** `startNewRound`: compose, shuffle again where the draft does, and add
      the order to `column4Presidents` from round 4 on. */
  function StartNewRound(draft: Draft, round: int, w: seq<int>, stats: seq<Stats>, column4: set<int>, d: RoundDraws): (r: RoundStart)
    ensures multiset(r.order) == multiset(Compose(round, w, stats, column4, d))
    ensures |r.order| == |Compose(round, w, stats, column4, d)|
    ensures !ShufflesOrder(draft) ==> r.order == Compose(round, w, stats, column4, d)
    ensures column4 <= r.column4
    ensures forall x | x in r.column4 && x !in column4 :: x in r.order
    ensures round >= 4 ==> forall x | x in r.order :: x in r.column4
    ensures round < 4 ==> r.column4 == column4
  {
    var composed := Compose(round, w, stats, column4, d);
    var order := if ShufflesOrder(draft) then Shuffle(composed, d.final) else composed;
    RoundStart(order, if round >= 4 then column4 + (set x | x in order) else column4)
  }

  /** Well-formed misses (different items; from round 5 on, all asked from
      round 4 on) give every round its length in different items. */
  lemma ComposeExact(round: int, w: seq<int>, stats: seq<Stats>, column4: set<int>, d: RoundDraws)
    requires Distinct(w) && forall x | x in w :: IsItem(x)
    requires !(1 <= round <= 4) ==> forall x | x in w :: x in column4
    ensures |Compose(round, w, stats, column4, d)| == RoundLength(round)
    ensures Distinct(Compose(round, w, stats, column4, d))
    ensures forall x | x in Compose(round, w, stats, column4, d) :: IsItem(x)
  {
    if round == 1 {
    } else if round == 2 {
      RefillExact(w, 12, d);
    } else if round == 3 {
      RefillExact(w, 10, d);
    } else if round == 4 {
      Round4Distinct(stats, column4);
    } else {
      Round5Exact(w, stats, column4, d);
    }
  }

  /** ... and so does the started round, shuffled or not. */
  lemma StartNewRoundExact(draft: Draft, round: int, w: seq<int>, stats: seq<Stats>, column4: set<int>, d: RoundDraws)
    requires Distinct(w) && forall x | x in w :: IsItem(x)
    requires !(1 <= round <= 4) ==> forall x | x in w :: x in column4
    ensures |StartNewRound(draft, round, w, stats, column4, d).order| == RoundLength(round)
    ensures Distinct(StartNewRound(draft, round, w, stats, column4, d).order)
    ensures forall x | x in StartNewRound(draft, round, w, stats, column4, d).order :: IsItem(x)
  {
    var composed := Compose(round, w, stats, column4, d);
    ComposeExact(round, w, stats, column4, d);
    var order := StartNewRound(draft, round, w, stats, column4, d).order;
    DistinctSubMultiset(order, composed);
    SubMultisetMembers(order, composed);
    assert |order| == |multiset(order)| == |multiset(composed)|;
  }

  /** Without the final shuffle (526, 526b), a round that re-asks every miss
      asks them first, in the order they were missed. */
  lemma MissesFirstWithoutShuffle(draft: Draft, round: int, w: seq<int>, stats: seq<Stats>, column4: set<int>, d: RoundDraws)
    requires !ShufflesOrder(draft)
    requires (round in {2, 3} || round >= 5) && |w| < RoundLength(round)
    ensures StartNewRound(draft, round, w, stats, column4, d).order[..|w|] == w
  {
  }

  /** mod/js/gameLogic.js as written: its round-4 branch reads an undefined
      `Participation`, so the `ReferenceError` ends `startNewRound` before any
      order is set (`None`). Other rounds start as in `StartNewRound`. */
  function ModStartNewRoundAsWritten(round: int, w: seq<int>, stats: seq<Stats>, column4: set<int>, d: RoundDraws): (r: Option<RoundStart>)
    ensures r.None? <==> round == 4
    ensures r.Some? ==> r.value == StartNewRound(Mod, round, w, stats, column4, d)
  {
    if round == 4 then None else Some(StartNewRound(Mod, round, w, stats, column4, d))
  }

  /** Round 4 never starts in mod/js, while the intended round 4 (the other
      drafts' `mostMissed` filter, used by `StartNewRound`) asks eight items. */
  lemma ModRound4Fails(w: seq<int>, stats: seq<Stats>, column4: set<int>, d: RoundDraws)
    ensures ModStartNewRoundAsWritten(4, w, stats, column4, d).None?
    ensures |StartNewRound(Mod, 4, w, stats, column4, d).order| == 8
  {
    assert Compose(4, w, stats, column4, d) == Round4(stats, column4);
  }

  /** `order.filter((_, i) => !currentRoundResults[i])`: the items missed on the first try. */
  function Missed(order: seq<int>, results: seq<bool>): (m: seq<int>)
    requires |results| == |order|
    ensures multiset(m) <= multiset(order)
    ensures forall i | 0 <= i < |order| && !results[i] :: order[i] in m
    ensures forall x | x in m :: exists i | 0 <= i < |order| :: order[i] == x && !results[i]
  {
    if |order| == 0 then []
    else
      var rest := Missed(order[1..], results[1..]);
      assert order == [order[0]] + order[1..];
      assert forall i | 1 <= i < |order| :: order[i] == order[1..][i - 1] && results[i] == results[1..][i - 1];
      if results[0] then rest else [order[0]] + rest
  }

  /** The misses of a well-formed round are well-formed misses for the next
      one: different items, and from round 4 on all in `column4Presidents`. */
  lemma MissesFeedNextRound(draft: Draft, round: int, w: seq<int>, stats: seq<Stats>, column4: set<int>,
                            d: RoundDraws, results: seq<bool>)
    requires Distinct(w) && forall x | x in w :: IsItem(x)
    requires !(1 <= round <= 4) ==> forall x | x in w :: x in column4
    requires |results| == |StartNewRound(draft, round, w, stats, column4, d).order|
    ensures var next := StartNewRound(draft, round, w, stats, column4, d);
            var missed := Missed(next.order, results);
            Distinct(missed) && (forall x | x in missed :: IsItem(x))
            && (round >= 4 ==> forall x | x in missed :: x in next.column4)
  {
    var next := StartNewRound(draft, round, w, stats, column4, d);
    var missed := Missed(next.order, results);
    StartNewRoundExact(draft, round, w, stats, column4, d);
    DistinctSubMultiset(missed, next.order);
    SubMultisetMembers(missed, next.order);
  }

  /** `Math.round((correct / total) * 100)` in exact arithmetic: rounds half
      up; `NaN` (`None`) for an empty round. */
  function RoundPercent(correct: nat, total: nat): (p: Option<int>)
    ensures p.None? <==> total == 0
    ensures p.Some? && correct <= total ==> 0 <= p.value <= 100
  {
    if total == 0 then None
    else
      var p := (200 * correct + total) / (2 * total);
      DivAtLeast(200 * correct + total, 2 * total, 101);
      DivAtLeast(200 * correct + total, 2 * total, 0);
      Some(p)
  }

  /** A rounded percentage reaches `k` exactly when the exact one reaches `k - 1/2`. */
  lemma PercentThreshold(correct: nat, total: nat, k: int)
    requires total > 0
    ensures RoundPercent(correct, total).value >= k <==> 200 * correct >= (2 * k - 1) * total
  {
    DivAtLeast(200 * correct + total, 2 * total, k);
    assert k * (2 * total) == 2 * k * total;
  }

  /** The difficulty at the start of a round. 527c starts round 1 at 3 and
      then moves one step up after a round of at least 90%, one step down
      after one under 80%, within 3 to 5; a `NaN` or missing percentage moves
      nothing. The other drafts change difficulty only in the settings. */
  function NextDifficulty(draft: Draft, round: int, prev: int, lastPercent: Option<int>): (level: int)
    ensures draft != NF527c ==> level == prev
    ensures draft == NF527c ==> 3 <= level <= 5
    ensures draft == NF527c && round == 1 ==> level == 3
  {
    if draft != NF527c then prev
    else if round == 1 then 3
    else
      var adjustment :=
        if lastPercent.Some? && lastPercent.value >= 90 then 1
        else if lastPercent.Some? && lastPercent.value < 80 then -1
        else 0;
      Min(5, Max(3, prev + adjustment))
  }

  /** Within 3 to 5 the difficulty moves by one step in the direction the percentage calls for. */
  lemma DifficultySteps(round: int, prev: int, pct: int)
    requires round != 1 && 3 <= prev <= 5
    ensures pct >= 90 ==> NextDifficulty(NF527c, round, prev, Some(pct)) == Min(prev + 1, 5)
    ensures pct < 80 ==> NextDifficulty(NF527c, round, prev, Some(pct)) == Max(prev - 1, 3)
    ensures 80 <= pct < 90 ==> NextDifficulty(NF527c, round, prev, Some(pct)) == prev
  {
  }

  /** A better round never lowers the next difficulty. */
  lemma DifficultyMonotone(round: int, prev: int, p: int, q: int)
    requires p <= q
    ensures NextDifficulty(NF527c, round, prev, Some(p)) <= NextDifficulty(NF527c, round, prev, Some(q))
  {
  }
}
