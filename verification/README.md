# US presidents flash-card quiz: the engine as pure functions

The game shows the card of a US president and asks for the president's
rank (1 to 32) or term of office among a few answer buttons. It plays nine
rounds. Round 1 asks every card. Later rounds re-ask the cards missed in the
previous round, and round 4 asks the cards answered least accurately. Each
card keeps a streak, a trial count and a first-try-correct count. A long
streak brings the wrong answers ("decoys") closer to the right one. After a
second miss the wrong buttons show hints about the president. After the
report card of a round the game goes on to the next round or to a
leaderboard submission.

The same engine exists in several drafts that differ in a few places:
526/NC-scripts.js, 526b/NC-scripts.js, 527c/NF-scripts.js,
PF3/js/new_game.js with PF/js/report-card.js, and the split
mod/js/{utils,gameLogic,ui}.js. This project models the engine once, with
the draft differences as parameters (`Presidents.Draft`), and proves what
the code relies on.

Modelling choices:

- **Randomness.** Every `Math.floor(Math.random() * n)` reads the next
  number of an explicit `seq<nat>` of draws, reduced modulo `n`.
  `Random.PickReachesEveryIndex` shows that every index is reachable this
  way. So a contract proved for all draw sequences holds for every outcome
  the browser can produce. `shuffle` is the source's Fisher-Yates loop.
- **Numbers.** Accuracies are exact rationals (`real`). `Math.round`
  percentages and `toFixed(2)` accuracies are integers computed by exact
  rounding half up. Times are milliseconds.
- **Sorting.** `Array.prototype.sort` with a numeric comparator is a stable
  insertion sort on a key `Fin(v) | Inf`. `Inf` stands for `Infinity`, the
  year of Cleveland's summary hint.
- **State.** The per-card counters are a `Stats` record. A round in play is
  a `Play.Game` value. The state between rounds is a `Flow.Session` value.
  Each event handler is a function from state to state.
- **Errors.** A thrown `TypeError` or `ReferenceError`, or an `undefined`
  answer, is `None` in an `Option`.

Modules: `Base` (sequence vocabulary), `Random`, `Text` (number text and
mod/js/utils.js), `Presidents` (the catalogue and per-card counters),
`Sorting`, `Options` (`generateOptions`), `Rounds` (`startNewRound`,
difficulty, report-card percentages), `Play` (presenting, clicking,
advancing), `Hints`, `Scores` (time format, leaderboards, initials,
grades), `Flow` (report card, routing, overall accuracy, play again).

## Model

| member | source | states |
|---|---|---|
| Random.Shuffle | mod/js/utils.js:10-16 | the result is a permutation of the input: same length, same multiset |
| Random.ShuffleMembers | mod/js/utils.js:10-16 | shuffling neither adds nor loses an element |
| Random.PickReachesEveryIndex | mod/js/utils.js:12 | every index below the pool size is chosen by some draw sequence |
| Random.Sample | 527c/NF-scripts.js:119-123 | the draw-and-splice loop takes a sub-multiset of the pool: exactly `want` elements when the pool has that many, the whole pool when it is shorter, none when `want <= 0` |
| Random.WithAnswer | 527c/NF-scripts.js:138-139 | `[r, ...decoys]` shuffled holds `r`, has one more element than the decoys, has no duplicate, and holds nothing else |
| Random.TwoFrom | 526/NC-scripts.js:163-165 | the two picks from a duplicate-free pool of two or more are different members of the pool |
| Text.SuitLetter | mod/js/utils.js:4-8 | "D", "R" or "O" exactly for "democratic", "republican" or "other"; `undefined` (None) exactly for any other suit |
| Text.JsRemOdd | mod/js/utils.js:26-27 | the truncating `%` is odd in its dividend and agrees with the Euclidean remainder on non-negative numbers |
| Text.OrdinalSuffix | mod/js/utils.js:25-32 | the suffix is always one of "st", "nd", "rd" and "th"; which one is stated by Text.OrdinalSuffixRule |
| Text.OrdinalSuffixRule | mod/js/utils.js:25-32 | 11, 12 and 13 modulo 100 take "th"; otherwise a last digit of 1, 2 or 3 takes "st", "nd" or "rd"; any other last digit takes "th"; the suffix repeats every 100 |
| Text.Ordinal | mod/js/utils.js:34-39 | "First", "Second" and "Third" exactly for 1, 2 and 3; from 4 on, a digit string that reads back as the rank, then the rank's suffix |
| Text.ParseDecimalString | mod/js/gameLogic.js:65 | `rank.toString()` reads back as the rank |
| Text.DecimalStringInjective | mod/js/gameLogic.js:65 | two different numbers never get the same text |
| Text.PadZeros | 527c/NF-scripts.js:701 | `padStart(width, '0')`: at least `width` long, the input at the end, zeros before it |
| Text.ParsePadded | 527c/NF-scripts.js:701 | zero padding does not change the value of a digit string |
| Presidents.Entry | 526/NC-scripts.js:4-37 | the entry at index `i` has rank `i + 1` |
| Presidents.TermTextInjective | 526/NC-scripts.js:4-37 | terms with four-digit years are written differently when their spans differ |
| Presidents.TermsDistinct | 526/NC-scripts.js:4-37 | no two ranks share a term text, so years mode tells every rank apart |
| Presidents.SpansChronological | 526/NC-scripts.js:4-37 | each term ends no earlier than it starts and starts no earlier than the previous one ended |
| Presidents.ClevelandIsTheDualTerm | 526/NC-scripts.js:26-28 | an entry is named Cleveland exactly at ranks 22 and 24, and no other name is carried by two entries |
| Options.GetDeviation | mod/js/utils.js:18-23 | `1 <= minD < maxD <= 9` for every streak, and (1, 2) from streak 3 on |
| Options.DeviationNarrows | mod/js/utils.js:18-23 | a longer streak never increases `minD` or `maxD` |
| Options.Partner | 527c/NF-scripts.js:114 | the other Cleveland rank exists exactly for 22 and 24, and is `46 - r` |
| Options.WindowBand | 527c/NF-scripts.js:105-110 | the loop bounds `max(1, r - maxD)`, `min(32, r + maxD)` plus the loop's test keep exactly the ranks at distance `minD..maxD` from `r` |
| Options.Window | 527c/NF-scripts.js:104-112 | `possibleRanks` has no duplicate and holds exactly the ranks 1..32 at distance `minD..maxD` from `r` |
| Options.ExcludePartner | 527c/NF-scripts.js:113-118 | the Cleveland filter removes exactly the partner rank, and only for Cleveland |
| Options.Candidates | 527c/NF-scripts.js:104-118 | the filtered window has no duplicate and holds exactly the window ranks other than Cleveland's partner |
| Options.AnswerNotCandidate | 527c/NF-scripts.js:108-109 | the correct rank is never one of its own window candidates |
| Options.Fallback | 527c/NF-scripts.js:126-132 | `allOtherRanks` has no duplicate and holds exactly the ranks 1..32 other than `r`, the chosen decoys and Cleveland's partner |
| Options.FallbackSize | 527c/NF-scripts.js:126-132 | with distinct chosen decoys, at least `30 - chosen` fallback ranks remain |
| Options.TopUp | 527c/NF-scripts.js:125-138 | the fallback adds nothing when none are wanted, exactly the wanted number when the ranks allow, and never more |
| Options.TopUpMembers | 527c/NF-scripts.js:125-138 | the fallback keeps the chosen decoys in front, adds only fallback ranks, and adds no duplicate |
| Options.WindowDraw | 527c/NF-scripts.js:119-124 | the first draws are different window candidates: `difficulty - 1` of them when the window has that many, otherwise the whole window |
| Options.Decoys | 527c/NF-scripts.js:102-138 | the decoys are different ranks in 1..32, never `r`, never Cleveland's partner |
| Options.DecoysCount | 527c/NF-scripts.js:119-138 | exactly `difficulty - 1` decoys whenever 0 to 30 are wanted, none when none are wanted, never more than wanted |
| Options.DecoysPreferWindow | 527c/NF-scripts.js:119-125 | with enough candidates every decoy lies in the window; otherwise the whole window is used before any fallback rank |
| Options.GenerateRanks | 527c/NF-scripts.js:139-140 | the offered ranks hold `r`, have no duplicate, lie in 1..32, and are `r` plus the decoys |
| Options.GenerateRanksValid | 527c/NF-scripts.js:113-132 | every offered rank lies in 1..32 and none is Cleveland's other rank, from either pool |
| Options.GenerateRanksCount | 527c/NF-scripts.js:102-146 | exactly `difficulty` ranks for every difficulty from 1 to 31 |
| Options.GenerateRanksAtMost | mod/js/gameLogic.js:26-66 | one rank when the difficulty is at most 1, never more than the difficulty |
| Options.GenerateThree | 526b/NC-scripts.js:100-127 | fixed three: `undefined` (None) exactly when fewer than two candidates exist; otherwise three different ranks holding `r`, with both decoys from the filtered window |
| Options.FixedThreeAlwaysDefined | 526b/NC-scripts.js:117-119 | every rank 1..32, every streak and either Cleveland setting leave at least two candidates |
| Options.FixedThreeNeverFails | 526/NC-scripts.js:163-167 | so the fixed-three generator never yields `undefined`, whatever the draws |
| Options.LabelInjective | 526/NC-scripts.js:168-172 | different ranks get different labels, in number and in years mode |
| Options.Render | 527c/NF-scripts.js:141-145 | one label per rank, the i-th label being the i-th rank's label |
| Options.RenderFaithful | 527c/NF-scripts.js:141-145 | the correct label sits exactly where the correct rank does |
| Options.RenderDistinct | 527c/NF-scripts.js:141-145 | distinct ranks render to pairwise different labels |
| Options.Present | PF3/js/new_game.js:101-108 | the buttons of an offer hold the correct label, one per rank, no label twice |
| Options.GenerateOptions | mod/js/gameLogic.js:26-66 | the correct label appears among pairwise different labels, so exactly once |
| Options.GenerateOptionsCount | PF3/js/new_game.js:65-109 | as many labels as the difficulty asks for, from 1 to 31 |
| Rounds.Accuracy | 527c/NF-scripts.js:326-329 | accuracy is non-negative, 1 for an untried card, and at most 1 when corrects do not exceed trials |
| Rounds.AccuracyCrossMultiply | 527c/NF-scripts.js:328-330 | for tried cards, comparing accuracies is comparing the cross products of their counts |
| Rounds.Round1 | 527c/NF-scripts.js:301-303 | round 1 asks 32 cards, each card once |
| Rounds.Others | 527c/NF-scripts.js:312 | the cards outside `W`, each once; at least `32 - W` of them when `W` holds different cards |
| Rounds.Refill | 527c/NF-scripts.js:305-324 | rounds 2 and 3 take `T` of the misses when there are enough; otherwise all misses in front, then only cards outside `W`, at most `T` in all |
| Rounds.RefillExact | 527c/NF-scripts.js:305-324 | different misses give exactly `T` different cards |
| Rounds.ByAccuracy | 527c/NF-scripts.js:326-330 | every card once, least accurate first |
| Rounds.ByAccuracyTiesInIndexOrder | 527c/NF-scripts.js:326-330 | cards of equal accuracy stay in index order, since the sort is stable (Sorting.SortByStable) |
| Sorting.SortByStable | 527c/NF-scripts.js:330 | the sort is stable: the elements of any one key appear in the same order as in the input |
| Rounds.MostMissed | 527c/NF-scripts.js:331 | `mostMissed` is the first six of the accuracy order |
| Rounds.MostMissedLowest | 527c/NF-scripts.js:326-331 | no card outside the six is less accurate than a card among them |
| Rounds.NearestDistance | 527c/NF-scripts.js:342-343 | the distance to the nearest of the six: `Infinity` for none, no greater than any distance, and attained by one of them |
| Rounds.Remaining | 527c/NF-scripts.js:332 | filtering the six out of the accuracy order leaves its tail after the sixth |
| Rounds.Unasked | 527c/NF-scripts.js:333 | exactly the remaining cards not asked from round 4 on |
| Rounds.Nearest | 527c/NF-scripts.js:341-345 | the closest-card fallback picks one remaining card that is not the single unasked one |
| Rounds.TwoMore | 527c/NF-scripts.js:334-351 | round 4 adds exactly two cards after the six |
| Rounds.TwoMoreFrom | 527c/NF-scripts.js:334-351 | the two added cards differ and come from the remaining ones |
| Rounds.TwoMorePrefersUnasked | 527c/NF-scripts.js:334-337 | with two or more unasked cards, both added cards are unasked |
| Rounds.TwoMoreTakesAllUnasked | 527c/NF-scripts.js:334-346 | with at most two unasked cards, every one of them is added |
| Rounds.TwoMoreLeastAccurate | 527c/NF-scripts.js:334-337 | the added unasked cards are the least accurate unasked ones |
| Rounds.Round4 | 527c/NF-scripts.js:325-351 | round 4 asks eight cards, the six least accurate first |
| Rounds.Round4Distinct | 527c/NF-scripts.js:325-351 | round 4's eight cards differ |
| Rounds.Round4PrefersUnasked | 527c/NF-scripts.js:333-337 | with two or more unasked cards left, the last two cards of round 4 are unasked |
| Rounds.NotInColumn4 | 527c/NF-scripts.js:358 | exactly the cards not asked from round 4 on, each once |
| Rounds.Outside | 527c/NF-scripts.js:371 | exactly the cards in neither list, each once, and enough of them to fill up to 32 |
| Rounds.TopUp8 | 527c/NF-scripts.js:356-381 | the top-up has at most `8 - W` cards, each a valid card, and none that is both a miss and already asked from round 4 on |
| Rounds.Round5 | 527c/NF-scripts.js:352-383 | rounds 5 to 9 take eight of the misses when there are enough, otherwise all misses in front and at most eight in all |
| Rounds.TopUp8Exact | 527c/NF-scripts.js:356-381 | misses all asked from round 4 on are topped up by exactly `8 - W` different cards outside `W` |
| Rounds.Round5Exact | 527c/NF-scripts.js:352-383 | under that premise, rounds 5 to 9 ask exactly eight different cards |
| Rounds.TopUp8PrefersNotInColumn4 | 527c/NF-scripts.js:359-366 | when enough cards were never asked from round 4 on, the top-up takes only those |
| Rounds.TopUp8TakesAllNotInColumn4 | 527c/NF-scripts.js:367-380 | otherwise the top-up takes every one of them |
| Rounds.TopUp8LeastAccurate | 527c/NF-scripts.js:359-366 | the cards it takes are the least accurate of those never asked from round 4 on |
| Rounds.StartNewRound | 527c/NF-scripts.js:384-387 | the final shuffle keeps the composed cards (order unchanged in 526 and 526b); `column4Presidents` only grows, by cards of this round; from round 4 on it covers the round; before round 4 it is untouched |
| Rounds.Compose | 527c/NF-scripts.js:301-383 | the branch of the round: round 1 asks every card once; round 4 asks eight cards, the six least accurate first; other rounds take their length from the misses when there are enough, otherwise all misses in front and at most the round's length |
| Rounds.ComposeExact | 527c/NF-scripts.js:301-383 | well-formed misses give each round its length (32, 12, 10, then 8) in different cards |
| Rounds.StartNewRoundExact | mod/js/gameLogic.js:107-196 | the started round, shuffled or not, has that length in different cards |
| Rounds.MissesFirstWithoutShuffle | 526b/NC-scripts.js:232-251 | without the final shuffle, a round that re-asks every miss asks them first, in the order they were missed |
| Rounds.ModStartNewRoundAsWritten | mod/js/gameLogic.js:141 | mod/js as written fails (None) exactly in round 4, and otherwise starts the round as intended |
| Rounds.ModRound4Fails | mod/js/gameLogic.js:134-160 | round 4 never starts in mod/js, although the intended round 4 asks eight cards |
| Rounds.Missed | 527c/NF-scripts.js:408 | the misses are a sub-multiset of the order; they hold every card whose slot is false and only such cards |
| Rounds.MissesFeedNextRound | 527c/NF-scripts.js:408-451 | a well-formed round's misses are well-formed misses for the next: different cards, and from round 4 on all in `column4Presidents` |
| Rounds.RoundPercent | 527c/NF-scripts.js:427 | `NaN` (None) exactly for an empty round; 0 to 100 when the corrects do not exceed the total |
| Rounds.PercentThreshold | 527c/NF-scripts.js:427 | the rounded percentage reaches `k` exactly when the exact one reaches `k - 1/2` |
| Rounds.NextDifficulty | 527c/NF-scripts.js:286-297 | only 527c changes difficulty between rounds: 3 in round 1, always within 3 to 5 |
| Rounds.DifficultySteps | 527c/NF-scripts.js:289-296 | from 90% one step up, under 80% one step down, otherwise unchanged, clamped to 3..5 |
| Rounds.DifficultyMonotone | 527c/NF-scripts.js:289-296 | a better round never lowers the next difficulty |
| Play.Present | mod/js/gameLogic.js:69-81 | past the end nothing changes; otherwise the card gets one more trial and a fresh button set; other cards are untouched |
| Play.MoveToNext | mod/js/gameLogic.js:96-104 | 527c, PF3, mod/js: the index grows by one exactly when another card follows, else nothing changes; 526, 526b always step |
| Play.Advance | 527c/NF-scripts.js:531-535 | a queued advance runs once and is removed from the queue |
| Play.OnClick | 527c/NF-scripts.js:505-541 | a click changes only the counters of the card on screen and never its trials |
| Play.CorrectClickCredits | 527c/NF-scripts.js:523-530 | a first-try correct click adds one to `corrects`, `streak` and `roundCorrects` and marks the slot; a later one zeroes `streak` and changes no count |
| Play.SecondMissResets | 527c/NF-scripts.js:537-605 | the second miss zeroes `streak`, keeps `corrects`, and leaves only the correct button live |
| Play.PresentSound | 526b/NC-scripts.js:185-191 | presenting keeps `corrects` plus any credit still to give within `totalTrials`, whatever credit the replaced card could still give |
| Play.MoveToNextSound | 526b/NC-scripts.js:218-222 | stepping to the next card keeps that bound |
| Play.AdvanceSound | 526b/NC-scripts.js:451-455 | running a queued advance keeps that bound |
| Play.ModeChangeSound | 526/NC-scripts.js:525-530 | the mode change keeps that bound, also over a fresh card that can still credit |
| Play.OnClickSound | 526b/NC-scripts.js:440-447 | with every button disabled after a correct click, clicks keep that bound |
| Play.DoubleClick | 527c/NF-scripts.js:515-535 | two correct clicks on a fresh card keep the same card on screen |
| Play.DoubleClickOvercounts | 527c/NF-scripts.js:517-527 | the clicked button stays live, so a second click credits again: two corrects for one trial and two queued advances |
| Play.DoubleClickIgnoredWhenDisabled | 526/NC-scripts.js:478-486 | where every button is disabled, the second click changes nothing and the bound holds |
| Play.ModeChange | 526/NC-scripts.js:525-530 | a mode change re-presents the same card, adding one trial |
| Play.ResetStats | 527c/NF-scripts.js:674-679 | play again zeroes every card's `streak`, `totalTrials` and `corrects`; 527c, PF3 and mod/js also empty `usedHints` |
| Play.ResetSound | 526/NC-scripts.js:562-568 | after the reset the bound holds for every card |
| Hints.ClevelandYears | PF3/js/new_game.js:436 | the years of the first term for rank 22, of the second otherwise, first year not after the last |
| Hints.AsHints | PF3/js/new_game.js:446-449 | one hint per accomplishment, same description, finite year |
| Hints.ClevelandPool | PF3/js/new_game.js:435-444 | the accomplishments within the term's years, then the summary with year `Infinity` last |
| Hints.HintPool | PF3/js/new_game.js:423-450 | a `TypeError` (None) exactly when the name has no entry, or Garfield or Harrison has no accomplishment; Garfield and Harrison get exactly two hints |
| Hints.ShortTermPools | PF3/js/new_game.js:425-434 | Garfield's hints are dated 1881 and Harrison's 1841; the second hint is the death notice |
| Hints.OnlySummaryInfinite | PF3/js/new_game.js:435-450 | the only hint of any pool with an infinite year is Cleveland's summary |
| Hints.AppendNew | PF3/js/new_game.js:460-464 | `usedHints` keeps its entries in front, gains exactly the new descriptions, and stays free of duplicates |
| Hints.Unused | PF3/js/new_game.js:453 | exactly the pool hints whose description is not used |
| Hints.Candidates | PF3/js/new_game.js:452-457 | the draw is made from the unused hints, or from the whole pool when too few remain |
| Hints.Draw | PF3/js/new_game.js:459 | `shuffle(...).slice(0, want)` takes `min(want, pool)` hints, a sub-multiset of the pool |
| Hints.SelectHints | PF3/js/new_game.js:452-465 | the hints shown come from the pool and are sorted by year |
| Hints.SelectHintsFresh | mod/js/ui.js:241-253 | with enough unused hints, `difficulty - 1` are shown and none was used before |
| Hints.SelectHintsRestart | mod/js/ui.js:242-253 | starting over shows `min(difficulty - 1, pool)` hints, and `usedHints` then holds just their descriptions |
| Hints.SelectHintsRemembers | mod/js/ui.js:240-252 | every hint shown is remembered; `usedHints` keeps its entries unless it starts over; it never holds a description twice |
| Hints.ClevelandSummaryLast | mod/js/ui.js:232-253 | Cleveland's summary, when drawn, is the last hint shown |
| Hints.TwoSentences | 526b/NC-scripts.js:462-480 | always two sentences: two accomplishments at different positions, the only one twice, or "No data available" twice |
| Hints.Available527c | 527c/NF-scripts.js:542-556 | a `TypeError` (None) exactly for a Cleveland card of another rank with accomplishments to filter; otherwise one description per accomplishment for other cards, and no more than the accomplishments for Cleveland |
| Hints.PickLoop | 527c/NF-scripts.js:565-576 | the loop shows `n` hints, present exactly when descriptions exist, each one a description of the card, and keeps what `usedHints` had |
| Hints.Without | 527c/NF-scripts.js:570 | filtering a picked description out removes exactly it, one element from a duplicate-free list |
| Hints.PickLoopRemembers | 527c/NF-scripts.js:565-576 | `usedHints` never gains a description twice and gains only unused ones |
| Hints.PickLoopPicksUnused | 527c/NF-scripts.js:567-571 | with at least `n` different unused descriptions, every pick is an unused one |
| Hints.PickLoopRecords | 527c/NF-scripts.js:567-571 | then `usedHints` gains exactly the picks, in the order drawn |
| Hints.PickLoopRemembersDrawn | 527c/NF-scripts.js:567-575 | every description added to `usedHints` was shown |
| Hints.PickHints527c | 527c/NF-scripts.js:557-578 | `difficulty - 1` hints, present exactly when descriptions exist, each one a description of the card |
| Hints.Unused527c | 527c/NF-scripts.js:560 | exactly the descriptions not used yet |
| Hints.PickLoopFromUnused | 527c/NF-scripts.js:560-576 | with enough unused descriptions, the loop shows unused ones, remembers each once, and keeps the old entries |
| Hints.PickHints527cFresh | 527c/NF-scripts.js:557-578 | with enough different unused descriptions, every hint is new and remembered, and `usedHints` grows by exactly the hints shown, without duplicates |
| Hints.PickHints527cRestart | 527c/NF-scripts.js:561-576 | starting over, `usedHints` holds only descriptions that were just shown |
| Scores.ClockOf | 527c/NF-scripts.js:697-700 | seconds below 60, milliseconds below 1000, and the fields recombine to the input |
| Scores.FormatTime | 527c/NF-scripts.js:697-702 | `MM:SS:mmm`: at least nine characters, with colons before the last three digits and before the two digits ahead of them |
| Scores.ParseFormatTime | 526b/NC-scripts.js:593-598 | reading a formatted time back gives the milliseconds it was made from |
| Scores.SaveScore | 527c/NF-scripts.js:711-723 | the board keeps `min(n + 1, 10)` entries in the board's order, taken without repetition from the old entries and the new one; the result is true exactly when an entry equal to the submitted one (same initials, same score) is on the board |
| Scores.SaveScoreKeepsBest | 526b/NC-scripts.js:607-619 | no dropped entry ranks ahead of a kept one |
| Scores.SaveScoreShortBoard | mod/js/ui.js:395-407 | with fewer than ten entries nothing is dropped and the new entry is kept |
| Scores.SaveScoreBeatsTenth | PF/js/report-card.js:109-116 | on a full sorted board, an entry ranking strictly ahead of the tenth is kept |
| Scores.TrimStart | 527c/NF-scripts.js:732 | drops exactly the leading white space |
| Scores.TrimEnd | 527c/NF-scripts.js:732 | drops exactly the trailing white space |
| Scores.Trim | 527c/NF-scripts.js:732 | the result neither starts nor ends with white space |
| Scores.TrimIsSlice | 527c/NF-scripts.js:732 | the trimmed text is a stretch of the input with only white space before and after it |
| Scores.Upper | 527c/NF-scripts.js:732 | a capital stays as it is, a lower-case letter becomes the capital at the same place in the alphabet, and any other character is unchanged |
| Scores.ToUpper | 527c/NF-scripts.js:732 | the same length as the input, each character upper-cased as Scores.Upper states |
| Scores.CheckInitials | 527c/NF-scripts.js:731-736 | an accepted entry is exactly three capitals A-Z |
| Scores.CheckInitialsExactly | mod/js/ui.js:412-416 | the input is accepted exactly when, trimmed, it is three letters of either case, and it is saved upper-cased |
| Scores.CheckInitialsPadded | PF/js/report-card.js:41-45 | white space around three letters does not matter |
| Scores.GradeOf | 527c/NF-scripts.js:755-760 | a `NaN` accuracy fails every threshold and gets F |
| Scores.GradeMonotone | mod/js/ui.js:431-436 | a higher accuracy never earns a lower grade |
| Scores.GradeThresholds | 526b/NC-scripts.js:651-656 | A from 90.00%, B from 80.00%, C from 70.00%, and not one hundredth below |
| Flow.SumsUpdate | 527c/NF-scripts.js:409-418 | storing a tally in a slot changes the sums by the difference |
| Flow.SumsBounded | 527c/NF-scripts.js:454-455 | with no round over-credited, the summed corrects never exceed the summed totals |
| Flow.OverallAccuracy | 527c/NF-scripts.js:453-456 | `NaN` (None) exactly when nothing was asked; otherwise between 0 and 100 when no round is over-credited |
| Flow.RatioAtMost | 527c/NF-scripts.js:456 | a part of at most the whole is at most 100% |
| Flow.OverallHundredths | 527c/NF-scripts.js:456 | the `toFixed(2)` accuracy is None exactly when nothing was asked, otherwise 0 to 10000 hundredths; which value it is, is stated by Flow.HundredthsThreshold |
| Flow.HundredthsThreshold | 527c/NF-scripts.js:456 | the hundredths reach `k` exactly when `10000 * sumCorrect / sumTotal` reaches `k - 1/2`, so the value is the exact accuracy rounded half up, not truncated |
| Flow.HundredthsRoundAccuracy | 527c/NF-scripts.js:453-456 | the `toFixed(2)` value and the overall accuracy agree: the hundredths reach `k` exactly when 100 times the accuracy reaches `k - 1/2` |
| Flow.PerfectGameEarnsA | 527c/NF-scripts.js:755-757 | a game with every card right first time scores 100.00% and earns an A |
| Flow.EndOfRound | PF3/js/new_game.js:363-377 | the next round is the current one plus one |
| Flow.RoundsInOrder | PF3/js/new_game.js:363-377 | rounds 1 to 8 are followed by the next round, round 9 by none; only a perfect round 1 is a speedrun |
| Flow.ReportCardPage | PF/js/report-card.js:3-75 | the page sends the player back exactly when `currentRound` is missing or zero or no data is stored |
| Flow.ReportCard | 527c/NF-scripts.js:407-451 | the round's tally goes into its slot and onto `roundResults`; the other slots and the earlier `roundResults` entries are kept; the next round's misses are exactly this round's missed cards (Rounds.Missed); the rounded percentage is kept for the next difficulty; counters, round and `column4Presidents` are unchanged |
| Flow.ReportPageAgrees | PF/js/report-card.js:37-75 | PF's page routes as the round's end does |
| Flow.ReportCardAgrees | PF/js/report-card.js:61-63 | reporting the next unplayed round keeps the slot sums equal to the `roundResults` sums, with later slots still unplayed |
| Flow.OverallAgrees | PF/js/report-card.js:61-63 | the overall accuracy is the same whether summed over the nine slots or over `roundResults` |
| Flow.Continue | 527c/NF-scripts.js:660-669 | continuing moves rounds 1 to 8 on by one and leaves round 9 alone, keeping the records |
| Flow.PlayAgain | 527c/NF-scripts.js:672-688 | play again restarts at round 1 with empty `column4Presidents`, no round results and zeroed counters |
| Flow.PlayAgainAgrees | 526/NC-scripts.js:570-573 | after play again the records agree and the overall accuracy is undefined |
| Flow.NextReportReady | 527c/NF-scripts.js:660-669 | a report card followed by continue leaves the records agreeing and ready for the next round's report |

## Left out

- Display, CSS classes, images, messages, the full-list view and the mobile
  super button are presentation only. The hint order on the buttons is also
  left out. The model keeps what the buttons are and whether they can be
  clicked.
- Timers are not modelled. The one-second delayed advance and the immediate
  advance after a second miss (526, 526b, 527c) are both a queued advance
  that runs as a separate event. Auto-return timers and timing itself are
  left out. Clock readings such as the speedrun time are inputs.
- Storage and loading are left out: `localStorage`, `fetch`, mod/js/data.js
  and PE/js/settings.js. Counters are values passed in and out. The
  catalogue of 526/NC-scripts.js stands in for the JSON the later drafts
  load.
- mod/js/new_game.js and the mod/js module wiring are not modelled. The
  wiring reassigns imported bindings and uses names it never imports. The
  logic of gameLogic.js and ui.js is modelled as if it were wired up.
- NG-FLUX/NF-scripts.js is a display test with placeholder data and is not
  part of this model.
- The settings popup that picks mode and difficulty is not modelled. Mode
  and difficulty are parameters.
- Floating point is replaced by exact arithmetic. Accuracies are rationals,
  and `Math.round` and `toFixed(2)` round exact values half up. Binary
  rounding at a half is not modelled.
- Rounds.NextDifficulty: a `null` `lastRoundPercentage` is modelled like
  `NaN`, as moving nothing. In the source, `null < 80` holds, but only
  round 1 can see `null`, and round 1 does not read it.
- Scores.TrimStart, Scores.TrimEnd, Scores.Trim, Scores.ToUpper and
  Scores.CheckInitialsExactly: `trim` is modelled for the ASCII white
  space, no-break space and byte-order mark, and `toUpperCase` for ASCII
  letters. Other Unicode spaces (such as U+3000 and U+2028) and case
  mappings (such as "ß" to "SS", or "ı" to "I", which makes "ııı"
  acceptable initials in the source) are not modelled.
- Scores.SaveScore: scores are integers (milliseconds, or hundredths of a
  percent). The source stores the overall score as the `toFixed(2)` string
  and compares it with `===`. That coercion is not modelled.
- Hints.AsHints: years are integers. `Number(entry.year)` on a year that is
  not numeric (`NaN`) is not modelled.
- Hints.PickLoopRecords requires the unused descriptions to be different.
  The loop's filter removes every copy of a picked description, so with
  repeats the picks can run out earlier.
- Play.Present: the `if (!currentPresident)` guard of mod/js/gameLogic.js
  is not modelled, because every round order holds valid card indices
  (`Rounds.StartNewRoundExact`).
- Options.GenerateOptions: Cleveland is passed as a flag. In mod/js, no
  current president means no exclusion, which is the flag set to false.
- Mobile and portrait layouts are not modelled. There, mod/js and PF3 show
  the first hint on a single button instead.

## Findings

| source | as written | input that shows it | evidently intended | confidence | as-written member | corrected member |
|---|---|---|---|---|---|---|
| mod/js/gameLogic.js:141 | round 4 filters `remaining` with `Participation`, a name defined nowhere, so a `ReferenceError` ends `startNewRound` | any game that reaches round 4 in mod/js | `mostMissed.includes(a.index)`, as 527c/NF-scripts.js:332 does | high; not executed | Rounds.ModStartNewRoundAsWritten, Rounds.ModRound4Fails | Rounds.StartNewRound, Rounds.StartNewRoundExact |
| 527c/NF-scripts.js:517-522 | a correct click disables the other buttons but not the clicked one (also PF3/js/new_game.js:399-404 and mod/js/ui.js:187-192) | a second click on the correct button of a fresh card within the one-second delay | the clicked button disabled too, as 526b/NC-scripts.js:442 does, so a card is credited at most once per trial | high; not executed | Play.DoubleClickOvercounts | Play.OnClickSound, Play.PresentSound, Play.MoveToNextSound, Play.AdvanceSound, Play.ModeChangeSound, Play.DoubleClickIgnoredWhenDisabled |
