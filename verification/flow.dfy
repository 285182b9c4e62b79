/** The game between rounds: the report card's bookkeeping
    (`showReportCard`), where the game goes next (speedrun submission after
    a perfect first round, overall submission after round 9, otherwise the
    next round), the report-card page of PF, the overall accuracy, and the
    play-again reset.

    A round's tally is kept twice: pushed onto `roundResults` (summed by
    527c, PF3 and mod/js) and stored in slot `round - 1` of the nine-slot
    `reportCardData` (summed by PF's report-card page, where unplayed slots
    are `0/0`). */
module Flow {
  import opened Base
  import opened Presidents
  import opened Rounds
  import opened Play
  import opened Scores

  /** `{ round, correct, total }`; round 0 marks an unplayed slot. */
  datatype Tally = Tally(round: nat, correct: nat, total: nat)

  const Unplayed: Tally := Tally(0, 0, 0)

  function SumCorrect(ts: seq<Tally>): nat {
    if |ts| == 0 then 0 else SumCorrect(ts[..|ts| - 1]) + ts[|ts| - 1].correct
  }

  function SumTotal(ts: seq<Tally>): nat {
    if |ts| == 0 then 0 else SumTotal(ts[..|ts| - 1]) + ts[|ts| - 1].total
  }

  /** Replacing one tally changes the sums by the difference. */
  lemma {:induction false} SumsUpdate(ts: seq<Tally>, i: nat, t: Tally)
    requires i < |ts|
    ensures SumCorrect(ts[i := t]) == SumCorrect(ts) - ts[i].correct + t.correct
    ensures SumTotal(ts[i := t]) == SumTotal(ts) - ts[i].total + t.total
    decreases |ts|
  {
    var u := ts[i := t];
    if i < |ts| - 1 {
      assert u[..|u| - 1] == ts[..|ts| - 1][i := t];
      SumsUpdate(ts[..|ts| - 1], i, t);
    } else {
      assert u[..|u| - 1] == ts[..|ts| - 1];
    }
  }

  /** No round has more first-try corrects than items. */
  predicate Sane(ts: seq<Tally>) {
    forall i | 0 <= i < |ts| :: ts[i].correct <= ts[i].total
  }

  lemma {:induction false} SumsBounded(ts: seq<Tally>)
    requires Sane(ts)
    ensures SumCorrect(ts) <= SumTotal(ts)
    decreases |ts|
  {
    if |ts| > 0 {
      SumsBounded(ts[..|ts| - 1]);
    }
  }

  /** `sumCorrect / sumTotal * 100` exactly; `NaN` (`None`) when nothing was asked. */
  function OverallAccuracy(ts: seq<Tally>): (a: Option<real>)
    ensures a.None? <==> SumTotal(ts) == 0
    ensures a.Some? ==> 0.0 <= a.value
    ensures a.Some? && Sane(ts) ==> a.value <= 100.0
  {
    if SumTotal(ts) == 0 then None
    else
      SumsBoundedWhen(ts);
      RatioAtMost(SumCorrect(ts), SumTotal(ts));
      Some(100.0 * SumCorrect(ts) as real / SumTotal(ts) as real)
  }

  /** A percentage of at most the whole is at most 100. */
  lemma RatioAtMost(c: nat, t: nat)
    requires 0 < t
    ensures 0.0 <= 100.0 * c as real / t as real
    ensures c <= t ==> 100.0 * c as real / t as real <= 100.0
  {
    var q := 100.0 * c as real / t as real;
    assert q * t as real == 100.0 * c as real;
    if c <= t {
      assert 100.0 * c as real <= 100.0 * t as real;
    }
  }

  lemma SumsBoundedWhen(ts: seq<Tally>)
    ensures Sane(ts) ==> SumCorrect(ts) <= SumTotal(ts)
  {
    if Sane(ts) {
      SumsBounded(ts);
    }
  }

  /** The `toFixed(2)` accuracy in hundredths of a percent, rounded half up. */
  function OverallHundredths(ts: seq<Tally>): (h: Option<int>)
    ensures h.None? <==> SumTotal(ts) == 0
    ensures h.Some? && Sane(ts) ==> 0 <= h.value <= 10000
  {
    var c := SumCorrect(ts);
    var t := SumTotal(ts);
    if t == 0 then None
    else
      SumsBoundedWhen(ts);
      DivAtLeast(20000 * c + t, 2 * t, 10001);
      DivAtLeast(20000 * c + t, 2 * t, 0);
      Some((20000 * c + t) / (2 * t))
  }

  /** The hundredths reach `k` exactly when the exact accuracy in hundredths,
      `10000 * sumCorrect / sumTotal`, reaches `k - 1/2`: the value is the
      exact one rounded half up. */
  lemma {:induction false} HundredthsThreshold(ts: seq<Tally>, k: int)
    requires SumTotal(ts) > 0
    ensures OverallHundredths(ts).value >= k <==> 20000 * SumCorrect(ts) >= (2 * k - 1) * SumTotal(ts)
  {
    DivAtLeast(20000 * SumCorrect(ts) + SumTotal(ts), 2 * SumTotal(ts), k);
    assert k * (2 * SumTotal(ts)) == 2 * k * SumTotal(ts);
  }

  /** The shown `toFixed(2)` value and the exact accuracy agree: the
      hundredths reach `k` exactly when 100 times the overall accuracy
      reaches `k - 1/2`. */
  lemma HundredthsRoundAccuracy(ts: seq<Tally>, k: int)
    requires SumTotal(ts) > 0
    ensures OverallHundredths(ts).value >= k <==> 100.0 * OverallAccuracy(ts).value >= k as real - 0.5
  {
    HundredthsThreshold(ts, k);
    HalfUpExact(SumCorrect(ts), SumTotal(ts), k);
  }

  /** `20000 c >= (2k - 1) t` says the same as `10000 c / t >= k - 1/2`. */
  lemma HalfUpExact(c: nat, t: nat, k: int)
    requires t > 0
    ensures 20000 * c >= (2 * k - 1) * t <==> 100.0 * (100.0 * c as real / t as real) >= k as real - 0.5
  {
    var tr := t as real;
    var a := 100.0 * c as real / tr;
    var x := 100.0 * a;
    var y := k as real - 0.5;
    assert a * tr == 100.0 * c as real;
    assert x * tr == 10000.0 * c as real;
    assert y * tr == (k as real) * tr - 0.5 * tr;
    MulRealMonotone(x, y, tr);
    var m := 20000 * c;
    var n := (2 * k - 1) * t;
    assert m as real == 20000.0 * c as real == 2.0 * (x * tr);
    assert n as real == (2 * k - 1) as real * tr == 2.0 * (y * tr);
    assert m >= n <==> m as real >= n as real;
    assert m >= n <==> x * tr >= y * tr;
    assert m >= n <==> x >= y;
    assert x == 100.0 * (100.0 * c as real / t as real);
  }

  /** Multiplying by a positive factor keeps the order both ways. */
  lemma MulRealMonotone(x: real, y: real, t: real)
    requires t > 0.0
    ensures x >= y <==> x * t >= y * t
  {
    if x >= y {
      assert x * t - y * t == (x - y) * t;
    } else {
      assert y * t - x * t == (y - x) * t;
    }
  }

  /** A game with every item answered right first time scores 100.00% and an A. */
  lemma PerfectGameEarnsA(ts: seq<Tally>)
    requires SumTotal(ts) > 0 && SumCorrect(ts) == SumTotal(ts)
    ensures OverallHundredths(ts) == Some(10000)
    ensures GradeOf(OverallHundredths(ts)) == A
  {
    var t := SumTotal(ts);
    assert 20000 * t + t == 10000 * (2 * t) + t;
    DivAtLeast(20000 * t + t, 2 * t, 10000);
    DivAtLeast(20000 * t + t, 2 * t, 10001);
  }

  /** Where the game goes after a report card. */
  datatype Route = SpeedrunSubmission | OverallSubmission | NextRound(round: int)

  /** The routing of `showReportCard` and the continue button: a first
      round with all 32 right on the first try submits a speedrun time;
      otherwise round 9 submits the overall accuracy; otherwise the next
      round follows. */
  function EndOfRound(round: int, roundCorrects: nat): (r: Route)
    ensures r.NextRound? ==> r.round == round + 1
  {
    if round == 1 && roundCorrects == 32 then SpeedrunSubmission
    else if round == 9 then OverallSubmission
    else NextRound(round + 1)
  }

  /** The round that follows a route: after the speedrun submission,
      round 2 (`round += 1`); after the overall submission, none. */
  function RoundAfter(r: Route): Option<int> {
    match r
    case SpeedrunSubmission => Some(2)
    case OverallSubmission => None
    case NextRound(n) => Some(n)
  }

  /** Whatever the score, rounds 1 to 8 are followed by the next one and
      round 9 ends the game; only a perfect first round is a speedrun. */
  lemma RoundsInOrder(round: int, roundCorrects: nat)
    requires 1 <= round <= 9
    ensures round < 9 ==> RoundAfter(EndOfRound(round, roundCorrects)) == Some(round + 1)
    ensures round == 9 ==> RoundAfter(EndOfRound(round, roundCorrects)).None?
    ensures EndOfRound(round, roundCorrects).SpeedrunSubmission? <==> round == 1 && roundCorrects == 32
  {
  }

  /** PF's report-card page. A missing or zero `currentRound` (`parseInt`
      gives `NaN`, here `None`) or no stored data sends the player back
      (`None`); otherwise it routes as the round's end does, reading the
      first round's corrects from slot 0. */
  function ReportCardPage(currentRound: Option<int>, slots: seq<Tally>): (p: Option<Route>)
    ensures p.None? <==> currentRound.None? || currentRound.value == 0 || |slots| == 0
  {
    if currentRound.None? || currentRound.value == 0 || |slots| == 0 then None
    else Some(EndOfRound(currentRound.value, slots[0].correct))
  }

  /** The state kept across rounds. */
  datatype Session = Session(stats: seq<Stats>, round: int, column4: set<int>, slots: seq<Tally>,
                             results: seq<Tally>, previousWrong: seq<int>, lastPercent: Option<int>)

  /** `showReportCard`: store the round's tally in its slot and push it onto
      `roundResults`, keep the misses for the next round, and keep the
      rounded percentage for the next difficulty. */
  function ReportCard(s: Session, order: seq<int>, outcomes: seq<bool>, roundCorrects: nat): (r: Session)
    requires 1 <= s.round <= |s.slots| && |outcomes| == |order|
    ensures r.stats == s.stats && r.round == s.round && r.column4 == s.column4
    ensures |r.slots| == |s.slots| && |r.results| == |s.results| + 1
    ensures r.slots[s.round - 1] == r.results[|s.results|] == Tally(s.round, roundCorrects, |order|)
    ensures forall x | x in r.previousWrong :: x in order
    ensures forall i | 0 <= i < |s.slots| && i != s.round - 1 :: r.slots[i] == s.slots[i]
    ensures r.results[..|s.results|] == s.results
    ensures r.previousWrong == Missed(order, outcomes)
    ensures r.lastPercent == RoundPercent(roundCorrects, |order|)
  {
    var t := Tally(s.round, roundCorrects, |order|);
    s.(slots := s.slots[s.round - 1 := t], results := s.results + [t],
       previousWrong := Missed(order, outcomes), lastPercent := RoundPercent(roundCorrects, |order|))
  }

  /** The page PF shows after its report card routes as the round's end does. */
  lemma ReportPageAgrees(s: Session, order: seq<int>, outcomes: seq<bool>, roundCorrects: nat)
    requires 1 <= s.round <= |s.slots| && |outcomes| == |order|
    ensures ReportCardPage(Some(s.round), ReportCard(s, order, outcomes, roundCorrects).slots)
              == Some(EndOfRound(s.round, roundCorrects))
  {
  }

  /** The two records agree: the slots from the next round on are unplayed,
      and both give the same sums. */
  predicate Agree(s: Session) {
    |s.slots| == 9 && |s.results| <= 9
    && SumCorrect(s.slots) == SumCorrect(s.results) && SumTotal(s.slots) == SumTotal(s.results)
    && forall i | |s.results| <= i < 9 :: s.slots[i] == Unplayed
  }

  /** A report card for the next unplayed round keeps the records agreeing. */
  lemma ReportCardAgrees(s: Session, order: seq<int>, outcomes: seq<bool>, roundCorrects: nat)
    requires Agree(s) && s.round == |s.results| + 1 <= 9 && |outcomes| == |order|
    ensures Agree(ReportCard(s, order, outcomes, roundCorrects))
  {
    var t := Tally(s.round, roundCorrects, |order|);
    var r := ReportCard(s, order, outcomes, roundCorrects);
    SumsUpdate(s.slots, s.round - 1, t);
    assert (s.results + [t])[..|s.results|] == s.results;
  }

  /** ... so the overall accuracy is the same whichever record it is summed from. */
  lemma OverallAgrees(s: Session)
    requires Agree(s)
    ensures OverallAccuracy(s.slots) == OverallAccuracy(s.results)
    ensures OverallHundredths(s.slots) == OverallHundredths(s.results)
  {
  }

  /** Leaving the report card: on to the round the route names, or stay at the end. */
  function Continue(s: Session, roundCorrects: nat): (r: Session)
    ensures r.slots == s.slots && r.results == s.results
    ensures 1 <= s.round < 9 ==> r.round == s.round + 1
    ensures s.round == 9 ==> r == s
  {
    match RoundAfter(EndOfRound(s.round, roundCorrects))
    case Some(n) => s.(round := n)
    case None => s
  }

  /** Play again: every item's counts go to zero, the game restarts at
      round 1 with no `column4Presidents`, empty report-card slots and no
      round results. */
  function PlayAgain(draft: Draft, s: Session): (r: Session)
    requires |s.stats| == N
    ensures r.round == 1 && r.column4 == {} && r.results == []
    ensures |r.stats| == N && forall i | 0 <= i < N :: r.stats[i].totalTrials == 0 && r.stats[i].corrects == 0 && r.stats[i].streak == 0
  {
    Session(ResetStats(draft, s.stats), 1, {}, seq(9, _ => Unplayed), [], s.previousWrong, s.lastPercent)
  }

  /** After play again the records agree, and each round then reported in
      turn keeps them agreeing. */
  lemma PlayAgainAgrees(draft: Draft, s: Session)
    requires |s.stats| == N
    ensures Agree(PlayAgain(draft, s))
    ensures OverallAccuracy(PlayAgain(draft, s).slots).None?
  {
    var slots := seq(9, _ => Unplayed);
    UnplayedSums(slots);
  }

  lemma {:induction false} UnplayedSums(ts: seq<Tally>)
    requires forall i | 0 <= i < |ts| :: ts[i] == Unplayed
    ensures SumCorrect(ts) == 0 && SumTotal(ts) == 0
    decreases |ts|
  {
    if |ts| > 0 {
      UnplayedSums(ts[..|ts| - 1]);
    }
  }

  /** A report card followed by continuing leaves the session ready for the next report card. */
  lemma NextReportReady(s: Session, order: seq<int>, outcomes: seq<bool>, roundCorrects: nat)
    requires Agree(s) && s.round == |s.results| + 1 <= 8 && |outcomes| == |order|
    ensures var r := Continue(ReportCard(s, order, outcomes, roundCorrects), roundCorrects);
            Agree(r) && r.round == |r.results| + 1
  {
    ReportCardAgrees(s, order, outcomes, roundCorrects);
  }
}
