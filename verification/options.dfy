/** `generateOptions`: the answer buttons offered for one item.

    The decoy ranks are drawn from a window around the correct rank `r` whose
    width shrinks as the item's streak grows (`getDeviation`). When the item is
    Cleveland, the rank of his other term is never offered, since both of his
    ranks would then be correct. Two generations of the generator exist:
    the difficulty-driven one (527c/NF-scripts.js, PF3/js/new_game.js,
    mod/js/gameLogic.js) draws `difficulty - 1` decoys and falls back to all
    other ranks when the window is too small; the fixed-three one
    (526/NC-scripts.js, 526b/NC-scripts.js) draws exactly two decoys from the
    window and fails on `undefined` when the window has fewer than two. */
module Options {
  import opened Base
  import opened Random
  import opened Text
  import opened Presidents

  datatype Deviation = Deviation(minD: nat, maxD: nat)

  /** `getDeviation(streak)`: how far from the correct rank decoys may lie. */
  function GetDeviation(streak: nat): (d: Deviation)
    ensures 1 <= d.minD < d.maxD <= 9
    ensures streak >= 3 ==> d == Deviation(1, 2)
  {
    if streak == 0 then Deviation(5, 9)
    else if streak == 1 then Deviation(3, 7)
    else if streak == 2 then Deviation(2, 5)
    else Deviation(1, 2)
  }

  /** A longer streak never widens the window nor pushes its near edge outwards:
      decoys get closer, and so harder, as the item is learned. */
  lemma DeviationNarrows(s: nat, t: nat)
    requires s <= t
    ensures GetDeviation(t).minD <= GetDeviation(s).minD
    ensures GetDeviation(t).maxD <= GetDeviation(s).maxD
  {
  }

  /** The rank of Cleveland's other term. */
  function Partner(r: int): (p: Option<int>)
    ensures p.Some? <==> r == 22 || r == 24
    ensures p.Some? ==> p.value + r == 46
  {
    if r == 22 then Some(24) else if r == 24 then Some(22) else None
  }

  /** A rank within the streak's distance band around `r`. */
  predicate InWindow(x: int, r: int, streak: nat) {
    1 <= x <= N && GetDeviation(streak).minD <= Abs(x - r) <= GetDeviation(streak).maxD
  }

  /** The `possibleRanks` loop from rank `i` up to, but excluding, `hi`: keeps
      every rank at distance at least `d.minD` from `r`, other than `r` itself. */
  function Scan(i: int, hi: int, r: int, d: Deviation): (pool: seq<int>)
    ensures Distinct(pool)
    ensures forall x :: x in pool <==> i <= x < hi && Abs(x - r) >= d.minD && x != r
    decreases hi - i
  {
    if i >= hi then []
    else
      var rest := Scan(i + 1, hi, r, d);
      if Abs(i - r) >= d.minD && i != r then
        DistinctConcat([i], rest);
        [i] + rest
      else rest
  }

  /** The loop bounds `max(1, r - maxD)` and `min(32, r + maxD)` together with
      its test keep exactly the ranks of the distance band. */
  lemma WindowBand(r: int, streak: nat)
    ensures forall x ::
              (Max(1, r - GetDeviation(streak).maxD) <= x < Min(32, r + GetDeviation(streak).maxD) + 1
               && Abs(x - r) >= GetDeviation(streak).minD && x != r)
              <==> InWindow(x, r, streak)
  {
  }

  /** The `possibleRanks` loop: the ranks within the streak's distance band. */
  function Window(r: int, streak: nat): (pool: seq<int>)
    ensures Distinct(pool)
    ensures forall x :: x in pool <==> InWindow(x, r, streak)
  {
    var d := GetDeviation(streak);
    WindowBand(r, streak);
    Scan(Max(1, r - d.maxD), Min(32, r + d.maxD) + 1, r, d)
  }

  /** Whether `x` is the rank that must not be offered for Cleveland. */
  predicate IsExcludedPartner(isCleveland: bool, r: int, x: int) {
    isCleveland && Partner(r) == Some(x)
  }

  /** The Cleveland filter: drops the other term's rank when the item is Cleveland. */
  function ExcludePartner(pool: seq<int>, isCleveland: bool, r: int): (q: seq<int>)
    requires Distinct(pool)
    ensures Distinct(q)
    ensures forall x :: x in q <==> x in pool && !IsExcludedPartner(isCleveland, r, x)
  {
    if isCleveland && Partner(r).Some? then
      DistinctFilter(pool, x => x != Partner(r).value);
      Filter(pool, x => x != Partner(r).value)
    else pool
  }

  /** A rank the window may offer as a decoy. */
  predicate IsCandidate(x: int, r: int, streak: nat, isCleveland: bool) {
    InWindow(x, r, streak) && !IsExcludedPartner(isCleveland, r, x)
  }

  /** The window after the Cleveland filter. */
  function Candidates(r: int, streak: nat, isCleveland: bool): (pool: seq<int>)
    ensures Distinct(pool)
    ensures forall x :: x in pool <==> IsCandidate(x, r, streak, isCleveland)
  {
    ExcludePartner(Window(r, streak), isCleveland, r)
  }

  predicate IsFallback(x: int, r: int, isCleveland: bool, chosen: seq<int>) {
    1 <= x <= N && x != r && x !in chosen && !IsExcludedPartner(isCleveland, r, x)
  }

  /** The correct rank is never its own decoy. */
  lemma AnswerNotCandidate(r: int, streak: nat, isCleveland: bool)
    ensures r !in Candidates(r, streak, isCleveland)
  {
    assert !InWindow(r, r, streak);
  }

  /** `allOtherRanks`: every rank other than `r` and the decoys already chosen,
      after the Cleveland filter. */
  function Fallback(r: int, isCleveland: bool, chosen: seq<int>): (pool: seq<int>)
    ensures Distinct(pool)
    ensures forall x :: x in pool <==> IsFallback(x, r, isCleveland, chosen)
  {
    DistinctRange(1, N + 1);
    DistinctFilter(Range(1, N + 1), x => x != r && x !in chosen);
    ExcludePartner(Filter(Range(1, N + 1), x => x != r && x !in chosen), isCleveland, r)
  }

  /** When everything but `r`, the chosen decoys and possibly the partner is
      available, at least `30 - |chosen|` ranks remain. */
  lemma FallbackSize(r: int, isCleveland: bool, chosen: seq<int>)
    requires Distinct(chosen)
    ensures |Fallback(r, isCleveland, chosen)| + |chosen| >= 30
  {
    var s := Range(1, N + 1);
    DistinctRange(1, N + 1);
    var p := x => x != r && x !in chosen;
    var e1 := {r} + set x | x in chosen;
    DistinctCard(chosen);
    assert |e1| <= 1 + |chosen|;
    FilterOutLength(s, e1, p);
    var f1 := Filter(s, p);
    DistinctFilter(s, p);
    if isCleveland && Partner(r).Some? {
      var q := x => x != Partner(r).value;
      FilterOutLength(f1, {Partner(r).value}, q);
    }
  }

  /** `difficulty - 1`, the number of decoys wanted. */
  function Need(difficulty: int): int { difficulty - 1 }

  /** The explicit draws consumed by one call. */
  datatype Draws = Draws(window: seq<nat>, fallback: seq<nat>, order: seq<nat>)

  /** The fallback loop: `chosen` followed by up to `want` further ranks drawn
      from `allOtherRanks`. */
  function TopUp(r: int, isCleveland: bool, chosen: seq<int>, want: int, draws: seq<nat>): (dec: seq<int>)
    requires Distinct(chosen)
    ensures want <= 0 ==> dec == chosen
    ensures 0 <= want <= 30 - |chosen| ==> |dec| == |chosen| + want
    ensures want >= 0 ==> |dec| <= |chosen| + want
  {
    FallbackSize(r, isCleveland, chosen);
    chosen + Sample(Fallback(r, isCleveland, chosen), want, draws, 0)
  }

  /** The fallback keeps what was chosen, adds only fallback ranks, and adds no duplicate. */
  lemma TopUpMembers(r: int, isCleveland: bool, chosen: seq<int>, want: int, draws: seq<nat>)
    requires Distinct(chosen)
    ensures TopUp(r, isCleveland, chosen, want, draws)[..|chosen|] == chosen
    ensures forall x | x in TopUp(r, isCleveland, chosen, want, draws) ::
              x in chosen || IsFallback(x, r, isCleveland, chosen)
    ensures Distinct(TopUp(r, isCleveland, chosen, want, draws))
  {
    var fb := Fallback(r, isCleveland, chosen);
    var more := Sample(fb, want, draws, 0);
    SampleKeepsDistinct(fb, want, draws, 0);
    SubMultisetMembers(more, fb);
    DistinctConcat(chosen, more);
    assert (chosen + more)[..|chosen|] == chosen;
  }

  /** A rank that may be offered as a decoy for `r`. */
  predicate IsDecoy(x: int, r: int, isCleveland: bool) {
    1 <= x <= N && x != r && !IsExcludedPartner(isCleveland, r, x)
  }

  /** The first `difficulty - 1` draws, from the window. */
  function WindowDraw(r: int, streak: nat, isCleveland: bool, need: int, draws: seq<nat>): (first: seq<int>)
    ensures Distinct(first)
    ensures forall x | x in first :: x in Candidates(r, streak, isCleveland)
    ensures need <= 0 ==> |first| == 0
    ensures 0 <= need <= |Candidates(r, streak, isCleveland)| ==> |first| == need
    ensures |first| <= |Candidates(r, streak, isCleveland)|
    ensures |first| < need ==> forall x | x in Candidates(r, streak, isCleveland) :: x in first
  {
    var pool := Candidates(r, streak, isCleveland);
    var first := Sample(pool, need, draws, 0);
    SampleKeepsDistinct(pool, need, draws, 0);
    SubMultisetMembers(first, pool);
    if |first| < need then
      SubMultisetMembers(pool, first);
      first
    else first
  }

  /** Topping up valid decoys gives valid decoys. */
  lemma TopUpValid(r: int, isCleveland: bool, chosen: seq<int>, want: int, draws: seq<nat>)
    requires Distinct(chosen) && forall x | x in chosen :: IsDecoy(x, r, isCleveland)
    ensures Distinct(TopUp(r, isCleveland, chosen, want, draws))
    ensures forall x | x in TopUp(r, isCleveland, chosen, want, draws) :: IsDecoy(x, r, isCleveland)
  {
    TopUpMembers(r, isCleveland, chosen, want, draws);
  }

  /** The decoys of the difficulty-driven generator, before the final shuffle:
      `difficulty - 1` draws from the window, topped up from all other ranks
      when the window runs dry. */
  function Decoys(r: int, streak: nat, isCleveland: bool, difficulty: int, d: Draws): (dec: seq<int>)
    ensures Distinct(dec)
    ensures forall x | x in dec :: 1 <= x <= N && x != r && !IsExcludedPartner(isCleveland, r, x)
  {
    var need := Need(difficulty);
    var first := WindowDraw(r, streak, isCleveland, need, d.window);
    AnswerNotCandidate(r, streak, isCleveland);
    assert forall x | x in first :: IsDecoy(x, r, isCleveland);
    if |first| < need then
      TopUpValid(r, isCleveland, first, need - |first|, d.fallback);
      TopUp(r, isCleveland, first, need - |first|, d.fallback)
    else
      first
  }

  /** Exactly `difficulty - 1` decoys whenever that many ranks exist besides `r`
      and Cleveland's partner, and never more. */
  lemma DecoysCount(r: int, streak: nat, isCleveland: bool, difficulty: int, d: Draws)
    ensures Need(difficulty) <= 0 ==> |Decoys(r, streak, isCleveland, difficulty, d)| == 0
    ensures 0 <= Need(difficulty) <= 30 ==> |Decoys(r, streak, isCleveland, difficulty, d)| == Need(difficulty)
    ensures Need(difficulty) >= 0 ==> |Decoys(r, streak, isCleveland, difficulty, d)| <= Need(difficulty)
  {
    var first := WindowDraw(r, streak, isCleveland, Need(difficulty), d.window);
  }

  /** The window is preferred: when it holds enough candidates every decoy comes
      from it, and otherwise all of it is used before any other rank. */
  lemma DecoysPreferWindow(r: int, streak: nat, isCleveland: bool, difficulty: int, d: Draws)
    ensures |Candidates(r, streak, isCleveland)| >= Need(difficulty) ==>
              forall x | x in Decoys(r, streak, isCleveland, difficulty, d) :: x in Candidates(r, streak, isCleveland)
    ensures |Candidates(r, streak, isCleveland)| < Need(difficulty) ==>
              forall x | x in Candidates(r, streak, isCleveland) :: x in Decoys(r, streak, isCleveland, difficulty, d)
  {
    var pool := Candidates(r, streak, isCleveland);
    var need := Need(difficulty);
    var first := WindowDraw(r, streak, isCleveland, need, d.window);
    if |first| < need {
      var dec := TopUp(r, isCleveland, first, need - |first|, d.fallback);
      TopUpMembers(r, isCleveland, first, need - |first|, d.fallback);
      forall x | x in first ensures x in dec {
        var i :| 0 <= i < |first| && first[i] == x;
        assert dec[..|first|][i] == x;
      }
    }
  }

  /** A set of buttons to offer for `r`: valid ranks, `r` among them, none twice. */
  predicate Offer(r: int, ranks: seq<int>) {
    r in ranks && Distinct(ranks) && forall x | x in ranks :: 1 <= x <= N
  }

  /** `ranks = [r, ...incorrectRanks]; shuffle(ranks)` of the difficulty-driven generator. */
  function GenerateRanks(r: int, streak: nat, isCleveland: bool, difficulty: int, d: Draws): (ranks: seq<int>)
    requires 1 <= r <= N
    ensures Offer(r, ranks)
    ensures |ranks| == |Decoys(r, streak, isCleveland, difficulty, d)| + 1
    ensures forall x | x in ranks :: x == r || x in Decoys(r, streak, isCleveland, difficulty, d)
  {
    WithAnswer(r, Decoys(r, streak, isCleveland, difficulty, d), d.order)
  }

  /** Every offered rank is a real rank, and Cleveland's other term is never offered. */
  lemma GenerateRanksValid(r: int, streak: nat, isCleveland: bool, difficulty: int, d: Draws)
    requires 1 <= r <= N
    ensures forall x | x in GenerateRanks(r, streak, isCleveland, difficulty, d) ::
              1 <= x <= N && !IsExcludedPartner(isCleveland, r, x)
  {
    var ranks := GenerateRanks(r, streak, isCleveland, difficulty, d);
    var dec := Decoys(r, streak, isCleveland, difficulty, d);
    forall x | x in ranks ensures 1 <= x <= N && !IsExcludedPartner(isCleveland, r, x) {
      if x != r {
        assert x in dec;
      } else {
        assert Partner(r) != Some(r);
      }
    }
  }

  /** The correct rank plus `difficulty - 1` decoys: as many buttons as the
      difficulty asks for. */
  lemma GenerateRanksCount(r: int, streak: nat, isCleveland: bool, difficulty: int, d: Draws)
    requires 1 <= r <= N
    ensures 1 <= difficulty <= 31 ==> |GenerateRanks(r, streak, isCleveland, difficulty, d)| == difficulty
  {
    DecoysCount(r, streak, isCleveland, difficulty, d);
  }

  /** One button when the difficulty asks for at most one, never more than asked otherwise. */
  lemma GenerateRanksAtMost(r: int, streak: nat, isCleveland: bool, difficulty: int, d: Draws)
    requires 1 <= r <= N
    ensures difficulty <= 1 ==> |GenerateRanks(r, streak, isCleveland, difficulty, d)| == 1
    ensures difficulty >= 1 ==> |GenerateRanks(r, streak, isCleveland, difficulty, d)| <= difficulty
  {
    DecoysCount(r, streak, isCleveland, difficulty, d);
  }

  /** The fixed-three generator: `incorrect1` from the window, `incorrect2` from
      the rest of the window, then a shuffle. With fewer than two candidates a
      decoy is `undefined` and rendering it throws, which is `None` here. */
  function GenerateThree(r: int, streak: nat, isCleveland: bool, d: Draws): (res: Option<seq<int>>)
    requires 1 <= r <= N
    ensures res.None? <==> |Candidates(r, streak, isCleveland)| < 2
    ensures res.Some? ==>
              |res.value| == 3 && r in res.value && Distinct(res.value)
              && forall x | x in res.value && x != r :: x in Candidates(r, streak, isCleveland)
  {
    var pool := Candidates(r, streak, isCleveland);
    if |pool| < 2 then None
    else
      var two := TwoFrom(pool, d.window);
      AnswerNotCandidate(r, streak, isCleveland);
      Some(WithAnswer(r, two, d.order))
  }

  /** Every rank, streak and Cleveland setting leaves at least two candidates,
      so the fixed-three generator never produces an `undefined` decoy. */
  lemma {:induction false} FixedThreeAlwaysDefined(r: int, streak: nat, isCleveland: bool)
    requires 1 <= r <= N
    ensures |Candidates(r, streak, isCleveland)| >= 2
  {
    var pool := Candidates(r, streak, isCleveland);
    var dev := GetDeviation(streak);
    var a, b;
    if r <= 16 || r == 24 {
      a, b := r + dev.minD, r + dev.minD + 1;
      assert Abs(a - r) == dev.minD && Abs(b - r) == dev.minD + 1;
    } else {
      a, b := r - dev.minD, r - dev.minD - 1;
      assert Abs(a - r) == dev.minD && Abs(b - r) == dev.minD + 1;
    }
    assert 1 <= a <= N && 1 <= b <= N;
    assert !IsExcludedPartner(isCleveland, r, a) && !IsExcludedPartner(isCleveland, r, b);
    assert IsCandidate(a, r, streak, isCleveland);
    assert IsCandidate(b, r, streak, isCleveland);
    TwoMembers(pool, a, b);
  }

  /** Hence the fixed-three generator succeeds whatever the draws. */
  lemma FixedThreeNeverFails(r: int, streak: nat, isCleveland: bool, d: Draws)
    requires 1 <= r <= N
    ensures GenerateThree(r, streak, isCleveland, d).Some?
  {
    FixedThreeAlwaysDefined(r, streak, isCleveland);
  }

  datatype Mode = Number | Years

  /** The button label of a rank: its decimal text, or its term in years mode. */
  function Label(rank: int, mode: Mode): string
    requires 1 <= rank <= N
  {
    match mode
    case Number => DecimalString(rank)
    case Years => TermOf(rank)
  }

  /** Different ranks never share a label, in either mode. */
  lemma LabelInjective(a: int, b: int, mode: Mode)
    requires 1 <= a <= N && 1 <= b <= N
    ensures Label(a, mode) == Label(b, mode) ==> a == b
  {
    match mode
    case Number => DecimalStringInjective(a, b);
    case Years => TermsDistinct();
  }

  /** `ranks.map(rank => rank.toString())` or `ranks.map(rank => presidents[rank - 1].term)`. */
  function Render(ranks: seq<int>, mode: Mode): (labels: seq<string>)
    requires forall i :: 0 <= i < |ranks| ==> 1 <= ranks[i] <= N
    ensures |labels| == |ranks|
    ensures forall i :: 0 <= i < |ranks| ==> labels[i] == Label(ranks[i], mode)
  {
    seq(|ranks|, i requires 0 <= i < |ranks| => Label(ranks[i], mode))
  }

  /** The label of `r` appears exactly where `r` does. */
  lemma RenderFaithful(ranks: seq<int>, mode: Mode, r: int)
    requires forall i :: 0 <= i < |ranks| ==> 1 <= ranks[i] <= N
    requires 1 <= r <= N
    ensures forall i :: 0 <= i < |ranks| ==> (Render(ranks, mode)[i] == Label(r, mode) <==> ranks[i] == r)
    ensures r in ranks <==> Label(r, mode) in Render(ranks, mode)
  {
    var labels := Render(ranks, mode);
    forall i | 0 <= i < |ranks| ensures labels[i] == Label(r, mode) <==> ranks[i] == r {
      LabelInjective(ranks[i], r, mode);
    }
    if r in ranks {
      var k :| 0 <= k < |ranks| && ranks[k] == r;
      assert labels[k] == Label(r, mode);
    }
    if Label(r, mode) in labels {
      var k :| 0 <= k < |labels| && labels[k] == Label(r, mode);
      assert ranks[k] == r;
    }
  }

  /** Rendering distinct ranks gives pairwise different labels. */
  lemma RenderDistinct(ranks: seq<int>, mode: Mode)
    requires forall i :: 0 <= i < |ranks| ==> 1 <= ranks[i] <= N
    requires Distinct(ranks)
    ensures forall i, j :: 0 <= i < j < |ranks| ==> Render(ranks, mode)[i] != Render(ranks, mode)[j]
  {
    var labels := Render(ranks, mode);
    forall i, j | 0 <= i < j < |ranks| ensures labels[i] != labels[j] {
      LabelInjective(ranks[i], ranks[j], mode);
      DistinctIndices(ranks, i, j);
    }
  }

  /** The rendered buttons of an offer of distinct valid ranks containing `r`:
      one per rank, the label of `r` among them, no label twice. */
  function Present(r: int, ranks: seq<int>, mode: Mode): (labels: seq<string>)
    requires 1 <= r <= N && Offer(r, ranks)
    ensures |labels| == |ranks|
    ensures Label(r, mode) in labels
    ensures forall i, j :: 0 <= i < j < |labels| ==> labels[i] != labels[j]
  {
    BoundsAtPositions(ranks, 1, N);
    RenderFaithful(ranks, mode, r);
    RenderDistinct(ranks, mode);
    Render(ranks, mode)
  }

  /** `generateOptions(correctRank, streak, mode, difficulty)` of the
      difficulty-driven variants: the correct label appears exactly once among
      pairwise different labels. */
  function GenerateOptions(r: int, streak: nat, mode: Mode, difficulty: int, isCleveland: bool, d: Draws)
    : (labels: seq<string>)
    requires 1 <= r <= N
    ensures Label(r, mode) in labels
    ensures forall i, j :: 0 <= i < j < |labels| ==> labels[i] != labels[j]
  {
    Present(r, GenerateRanks(r, streak, isCleveland, difficulty, d), mode)
  }

  /** As many buttons as the difficulty asks for. */
  lemma GenerateOptionsCount(r: int, streak: nat, mode: Mode, difficulty: int, isCleveland: bool, d: Draws)
    requires 1 <= r <= N
    ensures 1 <= difficulty <= 31 ==> |GenerateOptions(r, streak, mode, difficulty, isCleveland, d)| == difficulty
  {
    GenerateRanksCount(r, streak, isCleveland, difficulty, d);
  }
}
