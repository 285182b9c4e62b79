/** One round of play: presenting an item (`startNewPresident`), answer
    clicks, advancing (`moveToNextPresident`), the mode change of 526 and the
    play-again reset.

    The buttons are abstracted to what the click handlers test: how many wrong
    options are still clickable and whether the correct one is. A correct
    click queues an advance (`setTimeout(moveToNextPresident, 1000)`); the
    advance is a separate event, so that a click can arrive before it. */
module Play {
  import opened Base
  import opened Presidents
  import opened Rounds

  /** The state of the item on screen: wrong clicks so far (`attempts`), the
      wrong options still clickable, and whether the correct one is. */
  datatype Card = Card(attempts: nat, wrongLive: nat, correctLive: bool)

  /** The per-round state of the engine. `queued` counts advances scheduled
      by correct clicks and not yet run. */
  datatype Game = Game(stats: seq<Stats>, order: seq<int>, index: int, card: Card,
                       roundCorrects: nat, results: seq<bool>, queued: nat)

  predicate Valid(g: Game) {
    |g.stats| == N && |g.results| == |g.order| && g.index >= 0
    && forall x | x in g.order :: IsItem(x)
  }

  predicate OnItem(g: Game) { 0 <= g.index < |g.order| }

  /** The item on screen. */
  function Current(g: Game): (i: int)
    requires Valid(g) && OnItem(g)
    ensures IsItem(i)
  {
    g.order[g.index]
  }

  /** `startNewPresident`: past the end the report card is due and nothing
      changes; otherwise the item gets one more trial and a fresh card with
      `optionCount` options. Absent counts read as 0 (mod/js's `|| 0`), which
      a `nat` field already is. */
  function Present(g: Game, optionCount: nat): (r: Game)
    requires Valid(g)
    ensures Valid(r) && r.order == g.order && r.index == g.index && r.results == g.results
    ensures !OnItem(g) ==> r == g
    ensures OnItem(g) ==> r.stats[Current(g)].totalTrials == g.stats[Current(g)].totalTrials + 1
    ensures OnItem(g) ==> r.card.attempts == 0 && r.card.correctLive
    ensures forall i | 0 <= i < N && (!OnItem(g) || i != Current(g)) :: r.stats[i] == g.stats[i]
  {
    if !OnItem(g) then g
    else
      var i := Current(g);
      var s := g.stats[i];
      g.(stats := g.stats[i := s.(totalTrials := s.totalTrials + 1)],
         card := Card(0, Max(optionCount - 1, 0), true))
  }

  /** `moveToNextPresident`. 527c, PF3 and mod/js step only while another
      item follows and otherwise show the report card at the last index;
      526 and 526b always step and leave the report card to `Present`. */
  function MoveToNext(draft: Draft, g: Game, optionCount: nat): (r: Game)
    requires Valid(g)
    ensures Valid(r) && r.order == g.order
    ensures StopsAtLastItem(draft) ==>
              (g.index + 1 < |g.order| <==> r.index == g.index + 1)
              && (g.index + 1 >= |g.order| ==> r == g)
    ensures !StopsAtLastItem(draft) ==> r.index == g.index + 1
  {
    var g' := g.(index := g.index + 1);
    if StopsAtLastItem(draft) && g.index + 1 >= |g.order| then g
    else Present(g', optionCount)
  }

  /** The running advance of the queue of scheduled ones. */
  function Advance(draft: Draft, g: Game, optionCount: nat): (r: Game)
    requires Valid(g)
    ensures Valid(r)
    ensures g.queued == 0 ==> r == g
    ensures g.queued > 0 ==> r.queued == g.queued - 1
  {
    if g.queued == 0 then g
    else MoveToNext(draft, g.(queued := g.queued - 1), optionCount)
  }

  /** The card can still credit a first-try correct answer. */
  predicate CanCredit(c: Card) { c.correctLive && c.attempts == 0 }

  datatype Click = CorrectClick | WrongClick

  /** An option click. A disabled option ignores it. A correct click on the
      first try adds one to `corrects`, `streak` and `roundCorrects` and marks
      the slot; after a miss it zeroes `streak`. Either way it disables the
      other options and queues an advance; `disableAll` (526, 526b) disables
      the clicked option too. A wrong click disables that option; the second
      one zeroes `streak` and leaves only the correct option clickable. */
  function OnClick(disableAll: bool, g: Game, c: Click): (r: Game)
    requires Valid(g) && OnItem(g)
    ensures Valid(r) && r.order == g.order && r.index == g.index
    ensures forall i | 0 <= i < N && i != Current(g) :: r.stats[i] == g.stats[i]
    ensures r.stats[Current(g)].totalTrials == g.stats[Current(g)].totalTrials
  {
    var i := Current(g);
    var s := g.stats[i];
    match c
    case CorrectClick =>
      if !g.card.correctLive then g
      else
        var card := g.card.(wrongLive := 0, correctLive := !disableAll);
        if g.card.attempts == 0 then
          g.(stats := g.stats[i := s.(corrects := s.corrects + 1, streak := s.streak + 1)],
             roundCorrects := g.roundCorrects + 1,
             results := g.results[g.index := true],
             card := card, queued := g.queued + 1)
        else
          g.(stats := g.stats[i := s.(streak := 0)], card := card, queued := g.queued + 1)
    case WrongClick =>
      if g.card.wrongLive == 0 then g
      else
        var attempts := g.card.attempts + 1;
        if attempts == 2 then
          g.(stats := g.stats[i := s.(streak := 0)], card := Card(attempts, 0, true))
        else
          g.(card := g.card.(attempts := attempts, wrongLive := g.card.wrongLive - 1))
  }

  /** A first-try correct click adds exactly one to `corrects`, `streak` and
      `roundCorrects` and marks the item's slot; a later correct click zeroes
      `streak` and leaves the counts alone. */
  lemma CorrectClickCredits(disableAll: bool, g: Game)
    requires Valid(g) && OnItem(g) && g.card.correctLive
    ensures var r := OnClick(disableAll, g, CorrectClick);
            var i := Current(g);
            if g.card.attempts == 0 then
              r.stats[i].corrects == g.stats[i].corrects + 1
              && r.stats[i].streak == g.stats[i].streak + 1
              && r.roundCorrects == g.roundCorrects + 1 && r.results[g.index]
            else
              r.stats[i].corrects == g.stats[i].corrects && r.stats[i].streak == 0
              && r.roundCorrects == g.roundCorrects && r.results == g.results
  {
  }

  /** The second miss zeroes `streak`, keeps `corrects`, and leaves only the correct option live. */
  lemma SecondMissResets(disableAll: bool, g: Game)
    requires Valid(g) && OnItem(g) && g.card.attempts == 1 && g.card.wrongLive > 0
    ensures var r := OnClick(disableAll, g, WrongClick);
            r.stats[Current(g)].streak == 0 && r.stats[Current(g)].corrects == g.stats[Current(g)].corrects
            && r.card == Card(2, 0, true) && !CanCredit(r.card)
  {
  }

  /** Counts are sound: no item has more first-try corrects than trials,
      counting the credit the card on screen can still give. */
  predicate Sound(g: Game)
    requires Valid(g)
  {
    forall i | 0 <= i < N ::
      g.stats[i].corrects + (if OnItem(g) && i == Current(g) && CanCredit(g.card) then 1 else 0)
        <= g.stats[i].totalTrials
  }

  /** Presenting keeps counts sound: the new trial pays for the new card's
      credit, whatever credit the card it replaces could still give. */
  lemma PresentSound(g: Game, optionCount: nat)
    requires Valid(g) && Sound(g)
    ensures Sound(Present(g, optionCount))
  {
  }

  /** Stepping to the next item keeps counts sound: the credit the old card
      could still give is dropped, and the new item is presented. */
  lemma MoveToNextSound(draft: Draft, g: Game, optionCount: nat)
    requires Valid(g) && Sound(g)
    ensures Sound(MoveToNext(draft, g, optionCount))
  {
    forall i | 0 <= i < N
      ensures g.stats[i].corrects <= g.stats[i].totalTrials
    {
    }
  }

  /** Running a queued advance keeps counts sound. */
  lemma AdvanceSound(draft: Draft, g: Game, optionCount: nat)
    requires Valid(g) && Sound(g)
    ensures Sound(Advance(draft, g, optionCount))
  {
    if g.queued > 0 {
      MoveToNextSound(draft, g.(queued := g.queued - 1), optionCount);
    }
  }

  /** 526's mode change keeps counts sound, even over a card that can still credit. */
  lemma ModeChangeSound(g: Game, optionCount: nat)
    requires Valid(g) && Sound(g)
    ensures Sound(ModeChange(g, optionCount))
  {
    PresentSound(g, optionCount);
  }

  /** With every option disabled after a correct click (526, 526b), clicks
      keep counts sound. */
  lemma OnClickSound(g: Game, c: Click)
    requires Valid(g) && OnItem(g) && Sound(g)
    ensures Sound(OnClick(true, g, c))
  {
    var r := OnClick(true, g, c);
    var k := Current(g);
    forall i | 0 <= i < N
      ensures r.stats[i].corrects + (if OnItem(r) && i == Current(r) && CanCredit(r.card) then 1 else 0)
                <= r.stats[i].totalTrials
    {
      if i != k {
        assert r.stats[i] == g.stats[i];
      }
    }
  }

  /** Two correct clicks on a freshly presented item in 527c, PF3 or mod/js:
      the clicked option stays live and the second click credits again. */
  function DoubleClick(g: Game, optionCount: nat): (r: Game)
    requires Valid(g) && OnItem(g)
    ensures Valid(r) && OnItem(r) && Current(r) == Current(g)
  {
    var p := Present(g, optionCount);
    OnClick(false, OnClick(false, p, CorrectClick), CorrectClick)
  }

  /** The counterexample: one trial, two corrects, and two queued advances. */
  lemma DoubleClickOvercounts(g: Game, optionCount: nat)
    requires Valid(g) && OnItem(g) && Sound(g) && g.queued == 0
    requires g.stats[Current(g)].corrects == g.stats[Current(g)].totalTrials
    ensures var r := DoubleClick(g, optionCount);
            r.stats[Current(g)].corrects == r.stats[Current(g)].totalTrials + 1
            && r.queued == 2 && !Sound(r)
  {
    var k := Current(g);
    var p := Present(g, optionCount);
    var q := OnClick(false, p, CorrectClick);
    assert q.stats[k].corrects == p.stats[k].corrects + 1 && CanCredit(q.card);
  }

  /** The same two clicks where every option is disabled (526, 526b): the second is ignored. */
  lemma DoubleClickIgnoredWhenDisabled(g: Game, optionCount: nat)
    requires Valid(g) && OnItem(g) && Sound(g)
    ensures var p := Present(g, optionCount);
            var q := OnClick(true, p, CorrectClick);
            OnClick(true, q, CorrectClick) == q && Sound(q)
  {
    var p := Present(g, optionCount);
    PresentSound(g.(card := g.card.(correctLive := false)), optionCount);
    OnClickSound(p, CorrectClick);
  }

  /** 526's mode change: the same item is presented again, with one more trial. */
  function ModeChange(g: Game, optionCount: nat): (r: Game)
    requires Valid(g)
    ensures Valid(r) && r.index == g.index && r.order == g.order
    ensures OnItem(g) ==> r.stats[Current(g)].totalTrials == g.stats[Current(g)].totalTrials + 1
  {
    Present(g, optionCount)
  }

  /** Play again: every item's counts and streak go to zero; 527c, PF3 and
      mod/js also empty `usedHints`. */
  function ResetStats(draft: Draft, stats: seq<Stats>): (r: seq<Stats>)
    ensures |r| == |stats|
    ensures forall i | 0 <= i < |r| :: r[i].streak == 0 && r[i].totalTrials == 0 && r[i].corrects == 0
    ensures forall i | 0 <= i < |r| :: r[i].usedHints == if KeepsUsedHints(draft) then [] else stats[i].usedHints
  {
    seq(|stats|, i requires 0 <= i < |stats| =>
      stats[i].(streak := 0, totalTrials := 0, corrects := 0,
                usedHints := if KeepsUsedHints(draft) then [] else stats[i].usedHints))
  }

  /** After the reset every item's counts are sound. */
  lemma ResetSound(draft: Draft, stats: seq<Stats>, order: seq<int>, card: Card)
    requires |stats| == N && forall x | x in order :: IsItem(x)
    ensures var g := Game(ResetStats(draft, stats), order, |order|, card, 0, seq(|order|, _ => false), 0);
            Valid(g) && Sound(g)
  {
  }
}
