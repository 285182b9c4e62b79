/** The hints shown on the wrong options after the second miss.

    526b shows two sentences. 527c draws `difficulty - 1` descriptions one at
    a time. PF3 and mod/js build a pool of dated hints (with special pools for
    Garfield, W.H. Harrison and Cleveland), draw `difficulty - 1` of them and
    show them by year. The latter two remember shown descriptions in
    `usedHints` and start over when too few unused ones remain.

    `accomplishmentsByName` is loaded from a file; the accomplishments of the
    item are a parameter, `None` where the name has no entry. */
module Hints {
  import opened Base
  import opened Random
  import opened Sorting

  datatype Accomplishment = Accomplishment(description: string, year: int)

  /** A hint of PF3 and mod/js: a description and its year (`Infinity` for the Cleveland summary). */
  datatype Hint = Hint(description: string, year: Key)

  function HintYear(h: Hint): Key { h.year }

  const GarfieldDeath: string :=
    "On September 19, 1881, James A. Garfield died of assassination, ending his presidency after 6 months, and was succeeded by Chester A. Arthur."
  const HarrisonDeath: string :=
    "On April 4, 1841, W.H. Harrison died of pneumonia, ending his presidency after 1 month, and was succeeded by John Tyler."
  const ClevelandSummary: string :=
    "Grover Cleveland served two non-consecutive terms as the 22nd and 24th President."
  const NoData: string := "No data available"

  /** The years of Cleveland's first term (rank 22) or second term (any other rank). */
  function ClevelandYears(rank: int): (span: (int, int))
    ensures span.0 <= span.1
  {
    if rank == 22 then (1885, 1888) else (1893, 1896)
  }

  /** `entries.map(entry => ({ description, year: Number(entry.year) }))`. */
  function AsHints(acc: seq<Accomplishment>): (hs: seq<Hint>)
    ensures |hs| == |acc|
    ensures forall i | 0 <= i < |acc| :: hs[i] == Hint(acc[i].description, Fin(acc[i].year as real))
  {
    seq(|acc|, i requires 0 <= i < |acc| => Hint(acc[i].description, Fin(acc[i].year as real)))
  }

  predicate InYears(e: Accomplishment, span: (int, int)) { span.0 <= e.year <= span.1 }

  /** Cleveland's pool: the accomplishments within the years of the term,
      then the summary with year `Infinity`. */
  function ClevelandPool(rank: int, acc: seq<Accomplishment>): (pool: seq<Hint>)
    ensures |pool| >= 1 && pool[|pool| - 1] == Hint(ClevelandSummary, Inf)
    ensures forall i | 0 <= i < |pool| - 1 ::
              pool[i].year.Fin? && ClevelandYears(rank).0 as real <= pool[i].year.v <= ClevelandYears(rank).1 as real
  {
    var span := ClevelandYears(rank);
    var kept := Filter(acc, e => InYears(e, span));
    var term := AsHints(kept);
    forall i | 0 <= i < |term|
      ensures term[i].year.Fin? && span.0 as real <= term[i].year.v <= span.1 as real
    {
      assert kept[i] in kept;
    }
    term + [Hint(ClevelandSummary, Inf)]
  }

  /** The hint pool of PF3 and mod/js (`availableHints`). Reading an entry
      that does not exist (a missing name, or Garfield's and Harrison's first
      accomplishment when they have none) throws: `None`. */
  function HintPool(name: string, rank: int, acc: Option<seq<Accomplishment>>): (pool: Option<seq<Hint>>)
    ensures pool.None? <==> acc.None? || (name in {"Garfield", "W.H. Harrison"} && |acc.value| == 0)
    ensures pool.Some? && name in {"Garfield", "W.H. Harrison"} ==> |pool.value| == 2
  {
    if acc.None? then None
    else if name == "Garfield" then
      if |acc.value| == 0 then None
      else Some([Hint(acc.value[0].description, Fin(1881.0)), Hint(GarfieldDeath, Fin(1881.0))])
    else if name == "W.H. Harrison" then
      if |acc.value| == 0 then None
      else Some([Hint(acc.value[0].description, Fin(1841.0)), Hint(HarrisonDeath, Fin(1841.0))])
    else if name == "Cleveland" then Some(ClevelandPool(rank, acc.value))
    else Some(AsHints(acc.value))
  }

  /** Garfield's and Harrison's two hints are dated in the year their term ended by death. */
  lemma ShortTermPools(acc: seq<Accomplishment>)
    requires |acc| >= 1
    ensures forall h | h in HintPool("Garfield", 20, Some(acc)).value :: h.year == Fin(1881.0)
    ensures forall h | h in HintPool("W.H. Harrison", 9, Some(acc)).value :: h.year == Fin(1841.0)
    ensures HintPool("Garfield", 20, Some(acc)).value[1].description == GarfieldDeath
    ensures HintPool("W.H. Harrison", 9, Some(acc)).value[1].description == HarrisonDeath
  {
  }

  /** Only Cleveland's summary has an infinite year. */
  lemma OnlySummaryInfinite(name: string, rank: int, acc: Option<seq<Accomplishment>>)
    ensures HintPool(name, rank, acc).Some? ==>
              forall h | h in HintPool(name, rank, acc).value && h.year.Inf? :: h == Hint(ClevelandSummary, Inf)
  {
    if acc.Some? && name == "Cleveland" {
      ClevelandPoolInfinite(rank, acc.value);
    }
  }

  lemma ClevelandPoolInfinite(rank: int, acc: seq<Accomplishment>)
    ensures forall h | h in ClevelandPool(rank, acc) && h.year.Inf? :: h == Hint(ClevelandSummary, Inf)
  {
    var pool := ClevelandPool(rank, acc);
    forall h | h in pool && h.year.Inf? ensures h == Hint(ClevelandSummary, Inf) {
      var i :| 0 <= i < |pool| && pool[i] == h;
    }
  }

  /** The descriptions of a sequence of hints. */
  function Descriptions(hs: seq<Hint>): (ds: seq<string>)
    ensures |ds| == |hs|
    ensures forall i | 0 <= i < |hs| :: ds[i] == hs[i].description
  {
    seq(|hs|, i requires 0 <= i < |hs| => hs[i].description)
  }

  /** `ds.forEach(d => { if (!used.includes(d)) used.push(d); })`. */
  function AppendNew(used: seq<string>, ds: seq<string>): (r: seq<string>)
    ensures used <= r
    ensures forall x :: x in r <==> x in used || x in ds
    ensures Distinct(used) ==> Distinct(r)
    decreases |ds|
  {
    if |ds| == 0 then used
    else
      var next := if ds[0] in used then used else used + [ds[0]];
      assert Distinct(used) ==> Distinct(next) by {
        if Distinct(used) && ds[0] !in used {
          DistinctConcat(used, [ds[0]]);
        }
      }
      assert forall x | x in ds[1..] :: x in ds;
      assert ds == [ds[0]] + ds[1..];
      AppendNew(next, ds[1..])
  }

  /** `availableHints.filter(h => !usedHints.includes(h.description))`. */
  function Unused(pool: seq<Hint>, used: seq<string>): (u: seq<Hint>)
    ensures forall h :: h in u <==> h in pool && h.description !in used
  {
    Filter(pool, (h: Hint) => h.description !in used)
  }

  /** Too few unused hints remain: `usedHints` starts over. */
  predicate StartsOver(pool: seq<Hint>, used: seq<string>, difficulty: int) {
    |Unused(pool, used)| < difficulty - 1
  }

  /** The hints shown and the updated `usedHints`. */
  datatype Selection = Selection(hints: seq<Hint>, used: seq<string>)

  /** What the draw is made from: the unused hints, or the whole pool when too few remain. */
  function Candidates(pool: seq<Hint>, used: seq<string>, difficulty: int): (c: seq<Hint>)
    ensures forall h | h in c :: h in pool
    ensures !StartsOver(pool, used, difficulty) ==>
              |c| >= difficulty - 1 && forall h | h in c :: h.description !in used
    ensures StartsOver(pool, used, difficulty) ==> c == pool
  {
    if StartsOver(pool, used, difficulty) then pool else Unused(pool, used)
  }

  /** `shuffle(from).slice(0, want)`. */
  function Draw(from: seq<Hint>, want: int, draws: seq<nat>): (sel: seq<Hint>)
    ensures 0 <= want ==> |sel| == Min(want, |from|)
    ensures multiset(sel) <= multiset(from)
  {
    var shuffled := Shuffle(from, draws);
    var sel := SliceTo(shuffled, want);
    PrefixMultiset(sel, shuffled);
    sel
  }

  /** Hint selection of PF3 and mod/js: start over if needed, shuffle the
      candidates, keep `difficulty - 1`, remember their descriptions, and
      show them by year. */
  function SelectHints(pool: seq<Hint>, used: seq<string>, difficulty: int, draws: seq<nat>): (r: Selection)
    ensures SortedBy(r.hints, HintYear)
    ensures forall h | h in r.hints :: h in pool
  {
    var restart := StartsOver(pool, used, difficulty);
    var from := Candidates(pool, used, difficulty);
    var sel := Draw(from, difficulty - 1, draws);
    var hints := SortBy(sel, HintYear);
    SubMultisetMembers(hints, from);
    Selection(hints, AppendNew(if restart then [] else used, Descriptions(sel)))
  }

  /** The hints shown are the drawn ones, in year order: as many as wanted
      when enough unused ones remain, and then none already used. */
  lemma SelectHintsFresh(pool: seq<Hint>, used: seq<string>, difficulty: int, draws: seq<nat>)
    requires difficulty >= 1 && !StartsOver(pool, used, difficulty)
    ensures var r := SelectHints(pool, used, difficulty, draws);
            |r.hints| == difficulty - 1 && forall h | h in r.hints :: h.description !in used
  {
    var from := Candidates(pool, used, difficulty);
    var sel := Draw(from, difficulty - 1, draws);
    SubMultisetMembers(SortBy(sel, HintYear), from);
  }

  /** Starting over shows as many as wanted or the whole pool, and
      `usedHints` then holds just the shown descriptions. */
  lemma SelectHintsRestart(pool: seq<Hint>, used: seq<string>, difficulty: int, draws: seq<nat>)
    requires difficulty >= 1 && StartsOver(pool, used, difficulty)
    ensures var r := SelectHints(pool, used, difficulty, draws);
            |r.hints| == Min(difficulty - 1, |pool|)
            && forall x :: x in r.used <==> x in Descriptions(r.hints)
  {
    var sel := Draw(pool, difficulty - 1, draws);
    var hints := SortBy(sel, HintYear);
    DescriptionsOfPermutation(sel, hints);
  }

  /** Every hint shown is remembered, `usedHints` keeps what it had unless
      it starts over, and never holds a description twice. */
  lemma SelectHintsRemembers(pool: seq<Hint>, used: seq<string>, difficulty: int, draws: seq<nat>)
    ensures var r := SelectHints(pool, used, difficulty, draws);
            (forall h | h in r.hints :: h.description in r.used)
            && (!StartsOver(pool, used, difficulty) ==> used <= r.used)
            && (Distinct(used) ==> Distinct(r.used))
  {
    var from := Candidates(pool, used, difficulty);
    var sel := Draw(from, difficulty - 1, draws);
    DescriptionsOfPermutation(sel, SortBy(sel, HintYear));
  }

  /** Reordering hints does not change which descriptions they have. */
  lemma DescriptionsOfPermutation(a: seq<Hint>, b: seq<Hint>)
    requires multiset(a) == multiset(b)
    ensures forall x :: x in Descriptions(a) <==> x in Descriptions(b)
  {
    forall x ensures x in Descriptions(a) ==> x in Descriptions(b) {
      if x in Descriptions(a) {
        var i :| 0 <= i < |a| && Descriptions(a)[i] == x;
        assert a[i] in multiset(b);
        var j :| 0 <= j < |b| && b[j] == a[i];
        assert Descriptions(b)[j] == x;
      }
    }
    forall x ensures x in Descriptions(b) ==> x in Descriptions(a) {
      if x in Descriptions(b) {
        var j :| 0 <= j < |b| && Descriptions(b)[j] == x;
        assert b[j] in multiset(a);
        var i :| 0 <= i < |a| && a[i] == b[j];
        assert Descriptions(a)[i] == x;
      }
    }
  }

  /** Cleveland's summary, when drawn, is shown last: it is the only hint
      with an infinite year. */
  lemma ClevelandSummaryLast(rank: int, acc: seq<Accomplishment>, used: seq<string>, difficulty: int, draws: seq<nat>)
    ensures var pool := ClevelandPool(rank, acc);
            var hints := SelectHints(pool, used, difficulty, draws).hints;
            Hint(ClevelandSummary, Inf) in hints ==> hints[|hints| - 1] == Hint(ClevelandSummary, Inf)
  {
    var pool := ClevelandPool(rank, acc);
    ClevelandPoolInfinite(rank, acc);
    UniqueInfiniteLast(SelectHints(pool, used, difficulty, draws).hints, pool, Hint(ClevelandSummary, Inf));
  }

  /** In hints sorted by year and drawn from a pool whose only infinite-year
      hint is `x`, a drawn `x` comes last. */
  lemma UniqueInfiniteLast(hints: seq<Hint>, pool: seq<Hint>, x: Hint)
    requires SortedBy(hints, HintYear) && forall h | h in hints :: h in pool
    requires x.year.Inf? && forall h | h in pool && h.year.Inf? :: h == x
    ensures x in hints ==> hints[|hints| - 1] == x
  {
    if x in hints {
      var i :| 0 <= i < |hints| && hints[i] == x;
      var last := |hints| - 1;
      if i < last {
        assert KeyLe(HintYear(hints[i]), HintYear(hints[last]));
        assert hints[last] in pool;
      }
    }
  }

  /** 526b's two sentences: two different accomplishments (by position), the
      only one twice, or "No data available" twice. A missing entry reads as none. */
  function TwoSentences(acc: seq<string>, draws: seq<nat>): (r: seq<string>)
    ensures |r| == 2
    ensures |acc| == 0 ==> r == [NoData, NoData]
    ensures |acc| == 1 ==> r == [acc[0], acc[0]]
    ensures |acc| >= 2 ==> exists i, j | 0 <= i < |acc| && 0 <= j < |acc| :: i != j && r == [acc[i], acc[j]]
  {
    if |acc| >= 2 then
      var indices := Shuffle(Range(0, |acc|), draws);
      DistinctRange(0, |acc|);
      ShuffleKeepsDistinct(Range(0, |acc|), draws);
      ShuffleMembers(Range(0, |acc|), draws);
      assert indices[0] in indices && indices[1] in indices;
      DistinctIndices(indices, 0, 1);
      [acc[indices[0]], acc[indices[1]]]
    else if |acc| == 1 then [acc[0], acc[0]]
    else [NoData, NoData]
  }

  /** The descriptions 527c draws from (`availableHints`): Cleveland's are
      kept to the years of the term the rank names. For a Cleveland rank
      other than 22 or 24 the years are undefined, and reading them throws
      (`None`) as soon as there is an accomplishment to test. A missing
      entry reads as none. */
  function Available527c(name: string, rank: int, acc: seq<Accomplishment>): (avail: Option<seq<string>>)
    ensures avail.None? <==> name == "Cleveland" && rank !in {22, 24} && |acc| > 0
    ensures avail.Some? && name != "Cleveland" ==> |avail.value| == |acc|
    ensures avail.Some? && name == "Cleveland" ==> |avail.value| <= |acc|
  {
    if name == "Cleveland" then
      if rank == 22 || rank == 24 then
        Some(Descriptions(AsHints(Filter(acc, e => InYears(e, ClevelandYears(rank))))))
      else if |acc| == 0 then Some([])
      else None
    else Some(Descriptions(AsHints(acc)))
  }

  /** The hints 527c shows (`undefined` is `None`) and its updated `usedHints`. */
  datatype Picked = Picked(hints: seq<Option<string>>, used: seq<string>)

  /** The loop of 527c: while unused descriptions remain, draw one, remove
      it, and remember it; then draw from all descriptions without
      remembering (`undefined` when there are none). */
  function PickLoop(avail: seq<string>, unused: seq<string>, used: seq<string>, n: nat, draws: seq<nat>, k: nat): (r: Picked)
    requires forall x | x in unused :: x in avail
    ensures |r.hints| == n
    ensures forall h | h in r.hints :: h.Some? <==> |avail| > 0
    ensures forall h | h in r.hints && h.Some? :: h.value in avail
    ensures used <= r.used
    decreases n
  {
    if n == 0 then Picked([], used)
    else if |unused| > 0 then
      var h := unused[Pick(draws, k, |unused|)];
      var r := PickLoop(avail, Without(unused, h), used + [h], n - 1, draws, k + 1);
      Picked([Some(h)] + r.hints, r.used)
    else
      var h := if |avail| > 0 then Some(avail[Pick(draws, k, |avail|)]) else None;
      var r := PickLoop(avail, unused, used, n - 1, draws, k + 1);
      Picked([h] + r.hints, r.used)
  }

  /** `unused.filter(h => h !== hint)`. */
  function Without(s: seq<string>, h: string): (r: seq<string>)
    ensures forall x :: x in r <==> x in s && x != h
    ensures Distinct(s) && h in s ==> |r| == |s| - 1
    ensures Distinct(s) ==> Distinct(r)
  {
    DistinctFilterWhen(s, x => x != h);
    if Distinct(s) && h in s then
      FilterOneOut(s, h);
      Filter(s, x => x != h)
    else
      Filter(s, x => x != h)
  }

  /** Filtering one value out of a sequence without repeats removes exactly one element. */
  lemma FilterOneOut(s: seq<string>, h: string)
    requires Distinct(s) && h in s
    ensures |Filter(s, x => x != h)| == |s| - 1
  {
    FilterRejects(s, x => x != h, h);
    FilterOutLength(s, {h}, x => x != h);
  }

  /** Everything remembered is either remembered before or drawn from the
      unused descriptions; with those disjoint and `usedHints` without
      repeats, the loop never remembers a description twice. */
  lemma {:induction false} PickLoopRemembers(avail: seq<string>, unused: seq<string>, used: seq<string>, n: nat, draws: seq<nat>, k: nat)
    requires forall x | x in unused :: x in avail
    requires Distinct(used) && forall x | x in unused :: x !in used
    ensures var r := PickLoop(avail, unused, used, n, draws, k);
            Distinct(r.used) && forall x | x in r.used :: x in used || x in unused
    decreases n
  {
    var r := PickLoop(avail, unused, used, n, draws, k);
    if n == 0 {
      assert r.used == used;
    } else if |unused| > 0 {
      var h := unused[Pick(draws, k, |unused|)];
      var rest := Without(unused, h);
      DistinctConcat(used, [h]);
      assert forall x | x in rest :: x in unused && x !in used + [h];
      PickLoopRemembers(avail, rest, used + [h], n - 1, draws, k + 1);
      var t := PickLoop(avail, rest, used + [h], n - 1, draws, k + 1);
      assert r.used == t.used;
      assert Distinct(t.used);
      assert forall x | x in t.used :: x in used || x in unused;
    } else {
      PickLoopRemembers(avail, unused, used, n - 1, draws, k + 1);
      var t := PickLoop(avail, unused, used, n - 1, draws, k + 1);
      assert r.used == t.used;
    }
  }

  /** With at least `n` different unused descriptions, every pick is an unused one. */
  lemma {:induction false} PickLoopPicksUnused(avail: seq<string>, unused: seq<string>, used: seq<string>, n: nat, draws: seq<nat>, k: nat)
    requires forall x | x in unused :: x in avail
    requires Distinct(unused) && |unused| >= n
    ensures forall h | h in PickLoop(avail, unused, used, n, draws, k).hints :: h.Some? && h.value in unused
    decreases n
  {
    if n > 0 {
      var h := unused[Pick(draws, k, |unused|)];
      var rest := Without(unused, h);
      PickLoopPicksUnused(avail, rest, used + [h], n - 1, draws, k + 1);
      var t := PickLoop(avail, rest, used + [h], n - 1, draws, k + 1);
      assert PickLoop(avail, unused, used, n, draws, k).hints == [Some(h)] + t.hints;
    }
  }

  /** Each value as a present option. */
  function Somes(vs: seq<string>): (hs: seq<Option<string>>)
    ensures |hs| == |vs|
    ensures forall v :: Some(v) in hs <==> v in vs
    ensures forall h | h in hs :: h.Some?
  {
    if |vs| == 0 then [] else [Some(vs[0])] + Somes(vs[1..])
  }

  /** With at least `n` unused descriptions left, exactly the picks are
      remembered, in the order drawn, after what was remembered before. */
  lemma {:induction false} PickLoopRecords(avail: seq<string>, unused: seq<string>, used: seq<string>, n: nat, draws: seq<nat>, k: nat)
    requires forall x | x in unused :: x in avail
    requires Distinct(unused) && |unused| >= n
    ensures var r := PickLoop(avail, unused, used, n, draws, k);
            |used| <= |r.used| && r.used[..|used|] == used && r.hints == Somes(r.used[|used|..])
    decreases n
  {
    var r := PickLoop(avail, unused, used, n, draws, k);
    if n == 0 {
      assert r.used[|used|..] == [];
    } else {
      var h := unused[Pick(draws, k, |unused|)];
      var rest := Without(unused, h);
      PickLoopRecords(avail, rest, used + [h], n - 1, draws, k + 1);
      var t := PickLoop(avail, rest, used + [h], n - 1, draws, k + 1);
      assert r == Picked([Some(h)] + t.hints, t.used);
      RecordsStep(used, h, t);
    }
  }

  /** One step of `PickLoopRecords`: a pick in front of what the rest of the loop records. */
  lemma RecordsStep(used: seq<string>, h: string, t: Picked)
    requires |used| + 1 <= |t.used| && t.used[..|used| + 1] == used + [h]
    requires t.hints == Somes(t.used[|used| + 1..])
    ensures |used| <= |t.used| && t.used[..|used|] == used
    ensures [Some(h)] + t.hints == Somes(t.used[|used|..])
  {
    var tail := t.used[|used| + 1..];
    assert t.used == used + [h] + tail by {
      assert t.used == t.used[..|used| + 1] + tail;
    }
    assert t.used[|used|..] == [h] + tail;
    assert ([h] + tail)[1..] == tail;
  }

  /** 527c's selection: start over when too few unused descriptions remain,
      draw `difficulty - 1` hints, then `shuffle(hints)` with the draws of `order`. */
  function PickHints527c(avail: seq<string>, used: seq<string>, difficulty: int, draws: seq<nat>, order: seq<nat>): (r: Picked)
    ensures |r.hints| == Max(difficulty - 1, 0)
    ensures forall h | h in r.hints :: h.Some? <==> |avail| > 0
    ensures forall h | h in r.hints && h.Some? :: h.value in avail
  {
    var n := Max(difficulty - 1, 0);
    var p := if |Unused527c(avail, used)| < difficulty - 1 then PickLoop(avail, avail, [], n, draws, 0)
             else PickLoop(avail, Unused527c(avail, used), used, n, draws, 0);
    ShuffleMembers(p.hints, order);
    Picked(Shuffle(p.hints, order), p.used)
  }

  /** `availableHints.filter(hint => !usedHints.includes(hint))`. */
  function Unused527c(avail: seq<string>, used: seq<string>): (u: seq<string>)
    ensures forall x :: x in u <==> x in avail && x !in used
    ensures Distinct(avail) ==> Distinct(u)
  {
    DistinctFilterWhen(avail, x => x !in used);
    Filter(avail, x => x !in used)
  }

  /** The loop's part of `PickHints527cFresh`. */
  lemma PickLoopFromUnused(avail: seq<string>, used: seq<string>, n: nat, draws: seq<nat>)
    requires Distinct(avail) && Distinct(used) && |Unused527c(avail, used)| >= n
    ensures var p := PickLoop(avail, Unused527c(avail, used), used, n, draws, 0);
            (forall h | h in p.hints :: h.Some? && h.value in avail && h.value !in used && h.value in p.used)
            && Distinct(p.used) && used <= p.used && |p.used| == |used| + |p.hints|
  {
    var unused := Unused527c(avail, used);
    PickLoopPicksUnused(avail, unused, used, n, draws, 0);
    PickLoopRecords(avail, unused, used, n, draws, 0);
    PickLoopRemembers(avail, unused, used, n, draws, 0);
    var p := PickLoop(avail, unused, used, n, draws, 0);
    assert forall h | h in p.hints :: h.value in p.used[|used|..];
  }

  /** With enough unused descriptions that are all different, 527c shows
      fresh ones, remembers each of them after what it had, and never
      remembers a description twice. */
  lemma PickHints527cFresh(avail: seq<string>, used: seq<string>, difficulty: int, draws: seq<nat>, order: seq<nat>)
    requires Distinct(avail) && Distinct(used)
    requires |Unused527c(avail, used)| >= difficulty - 1
    ensures var r := PickHints527c(avail, used, difficulty, draws, order);
            (forall h | h in r.hints :: h.Some? && h.value in avail && h.value !in used && h.value in r.used)
            && Distinct(r.used) && used <= r.used && |r.used| == |used| + |r.hints|
  {
    var n := Max(difficulty - 1, 0);
    PickLoopFromUnused(avail, used, n, draws);
    var p := PickLoop(avail, Unused527c(avail, used), used, n, draws, 0);
    assert PickHints527c(avail, used, difficulty, draws, order) == Picked(Shuffle(p.hints, order), p.used);
    ShuffleMembers(p.hints, order);
  }

  /** Starting over, 527c forgets what it had and remembers only what it draws. */
  lemma PickHints527cRestart(avail: seq<string>, used: seq<string>, difficulty: int, draws: seq<nat>, order: seq<nat>)
    requires |Unused527c(avail, used)| < difficulty - 1
    ensures var r := PickHints527c(avail, used, difficulty, draws, order);
            forall x | x in r.used :: x in avail && exists h | h in r.hints :: h == Some(x)
  {
    var n := Max(difficulty - 1, 0);
    PickLoopRemembersDrawn(avail, avail, [], n, draws, 0);
    var p := PickLoop(avail, avail, [], n, draws, 0);
    ShuffleMembers(p.hints, order);
  }

  /** Each description the loop adds to `usedHints` is one of its picks. */
  lemma {:induction false} PickLoopRemembersDrawn(avail: seq<string>, unused: seq<string>, used: seq<string>, n: nat, draws: seq<nat>, k: nat)
    requires forall x | x in unused :: x in avail
    ensures var r := PickLoop(avail, unused, used, n, draws, k);
            forall x | x in r.used :: x in used || Some(x) in r.hints
    decreases n
  {
    if n > 0 {
      if |unused| > 0 {
        var h := unused[Pick(draws, k, |unused|)];
        PickLoopRemembersDrawn(avail, Without(unused, h), used + [h], n - 1, draws, k + 1);
      } else {
        PickLoopRemembersDrawn(avail, unused, used, n - 1, draws, k + 1);
      }
    }
  }
}
