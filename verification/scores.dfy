/** Score keeping shared by every draft: `formatTime` for speedrun times,
    the top-10 leaderboards of `saveScore`, the initials check of the score
    submission, and the grade of `showFinalMessage`.

    Speedrun scores are milliseconds; overall scores are the `toFixed(2)`
    accuracy, here an integer number of hundredths of a percent. */
module Scores {
  import opened Base
  import opened Text
  import opened Sorting

  /** The three fields of `formatTime`. */
  datatype Clock = Clock(minutes: nat, seconds: nat, millis: nat)

  /** The time a clock reading stands for. */
  function TotalMs(c: Clock): nat {
    c.minutes * 60000 + c.seconds * 1000 + c.millis
  }

  /** `Math.floor(ms / 60000)`, `Math.floor((ms % 60000) / 1000)` and `ms % 1000`. */
  function ClockOf(ms: nat): (c: Clock)
    ensures c.seconds < 60 && c.millis < 1000
    ensures TotalMs(c) == ms
  {
    var q := ms / 60000;
    var r := ms % 60000;
    var s := r / 1000;
    ModOfSum(q * 60 + s, r % 1000, ms);
    Clock(q, s, ms % 1000)
  }

  /** A number written as `k` thousands plus a remainder below 1000 has that remainder as `% 1000`. */
  lemma ModOfSum(k: nat, m: nat, n: nat)
    requires m < 1000 && n == k * 1000 + m
    ensures n % 1000 == m
  {
  }

  /** `formatTime(ms)`: `MM:SS:mmm`, each field zero-padded. */
  function FormatTime(ms: nat): (t: string)
    ensures |t| >= 9 && t[|t| - 4] == ':' && t[|t| - 7] == ':'
  {
    var c := ClockOf(ms);
    ShortDecimal(c.seconds);
    ShortDecimal(c.millis);
    PadZeros(DecimalString(c.minutes), 2) + ":" + PadZeros(DecimalString(c.seconds), 2)
      + ":" + PadZeros(DecimalString(c.millis), 3)
  }

  /** Numbers below 100 take at most two digits, below 1000 at most three. */
  lemma ShortDecimal(n: nat)
    ensures n < 100 ==> |DecimalString(n)| <= 2
    ensures n < 1000 ==> |DecimalString(n)| <= 3
  {
    if n >= 10 {
      assert |DecimalString(n)| == |DecimalString(n / 10)| + 1;
      if n / 10 >= 10 {
        assert |DecimalString(n / 10)| == |DecimalString(n / 100)| + 1;
      }
    }
  }

  /** Splits a `formatTime` text at its last two colons: the minutes, a
      two-character seconds field and a three-character milliseconds field. */
  function Fields(t: string): (f: Option<(string, string, string)>)
    ensures f.Some? ==> |f.value.1| == 2 && |f.value.2| == 3
    ensures f.Some? ==> t == f.value.0 + ":" + f.value.1 + ":" + f.value.2
  {
    if |t| >= 7 && t[|t| - 4] == ':' && t[|t| - 7] == ':' then
      assert t == t[..|t| - 7] + ":" + t[|t| - 6..|t| - 4] + ":" + t[|t| - 3..];
      Some((t[..|t| - 7], t[|t| - 6..|t| - 4], t[|t| - 3..]))
    else None
  }

  /** Reads a `formatTime` text back. */
  function ParseTime(t: string): (ms: Option<nat>)
    ensures ms.Some? ==> Fields(t).Some?
  {
    match Fields(t)
    case None => None
    case Some((a, b, m)) =>
      if AllDigits(a) && AllDigits(b) && AllDigits(m)
      then Some(TotalMs(Clock(ParseDecimal(a), ParseDecimal(b), ParseDecimal(m))))
      else None
  }

  /** `formatTime` loses nothing: its text reads back as the time it was given. */
  lemma ParseFormatTime(ms: nat)
    ensures ParseTime(FormatTime(ms)) == Some(ms)
  {
    var c := ClockOf(ms);
    ShortDecimal(c.seconds);
    ShortDecimal(c.millis);
    var a := PadZeros(DecimalString(c.minutes), 2);
    var b := PadZeros(DecimalString(c.seconds), 2);
    var m := PadZeros(DecimalString(c.millis), 3);
    PaddedValue(c.minutes, 2);
    PaddedValue(c.seconds, 2);
    PaddedValue(c.millis, 3);
    FieldsOfJoined(a, b, m);
    assert FormatTime(ms) == a + ":" + b + ":" + m;
    assert Clock(ParseDecimal(a), ParseDecimal(b), ParseDecimal(m)) == c;
  }

  /** A zero-padded decimal reads back as its number. */
  lemma PaddedValue(n: nat, width: nat)
    ensures AllDigits(PadZeros(DecimalString(n), width))
    ensures ParseDecimal(PadZeros(DecimalString(n), width)) == n
  {
    ParsePadded(DecimalString(n), width);
    ParseDecimalString(n);
  }

  /** Three fields joined by colons split back into the same three. */
  lemma FieldsOfJoined(a: string, b: string, m: string)
    requires |b| == 2 && |m| == 3
    ensures Fields(a + ":" + b + ":" + m) == Some((a, b, m))
  {
    var t := a + ":" + b + ":" + m;
    assert t[..|t| - 7] == a;
    assert t[|t| - 6..|t| - 4] == b;
    assert t[|t| - 3..] == m;
  }

  /** The two leaderboards: overall accuracy (highest first) and speedrun time (lowest first). */
  datatype Board = Overall | Speedrun

  datatype Score = Score(initials: string, score: int)

  /** The comparator of each board as a sort key: `b.score - a.score` for
      overall, `a.score - b.score` for speedrun. */
  function Ranking(kind: Board): Score -> Key {
    if kind.Overall? then (e: Score) => Fin(-(e.score as real)) else (e: Score) => Fin(e.score as real)
  }

  /** A board and whether the submitted entry made it (`saveScore`'s result). */
  datatype Saved = Saved(board: seq<Score>, kept: bool)

  /** `saveScore`: push the entry, sort by the board's order, keep the first
      ten, and report whether an equal entry is among them. */
  function SaveScore(kind: Board, scores: seq<Score>, initials: string, score: int): (r: Saved)
    ensures |r.board| == Min(|scores| + 1, 10)
    ensures SortedBy(r.board, Ranking(kind))
    ensures multiset(r.board) <= multiset(scores + [Score(initials, score)])
    ensures forall e | e in r.board :: e in scores || e == Score(initials, score)
    ensures r.kept <==> Score(initials, score) in r.board
  {
    var board := Lowest(scores + [Score(initials, score)], Ranking(kind), 10);
    Saved(board, Score(initials, score) in board)
  }

  /** The board keeps the best: no entry dropped ranks ahead of one kept. */
  lemma SaveScoreKeepsBest(kind: Board, scores: seq<Score>, initials: string, score: int)
    ensures var r := SaveScore(kind, scores, initials, score);
            forall x, y | x in r.board && y in scores + [Score(initials, score)] && y !in r.board ::
              KeyLe(Ranking(kind)(x), Ranking(kind)(y))
  {
    LowestAreLowest(scores + [Score(initials, score)], Ranking(kind), 10);
  }

  /** With fewer than ten entries nothing is dropped, so the new entry is kept. */
  lemma SaveScoreShortBoard(kind: Board, scores: seq<Score>, initials: string, score: int)
    requires |scores| < 10
    ensures var r := SaveScore(kind, scores, initials, score);
            r.kept && multiset(r.board) == multiset(scores + [Score(initials, score)])
  {
    var all := scores + [Score(initials, score)];
    var sorted := SortBy(all, Ranking(kind));
    assert Lowest(all, Ranking(kind), 10) == sorted;
    assert Score(initials, score) in multiset(sorted);
  }

  /** On a full sorted board, a score that ranks strictly ahead of the tenth is kept. */
  lemma SaveScoreBeatsTenth(kind: Board, scores: seq<Score>, initials: string, score: int)
    requires |scores| == 10 && SortedBy(scores, Ranking(kind))
    requires !KeyLe(Ranking(kind)(scores[9]), Ranking(kind)(Score(initials, score)))
    ensures SaveScore(kind, scores, initials, score).kept
  {
    var e := Score(initials, score);
    var all := scores + [e];
    var board := Lowest(all, Ranking(kind), 10);
    var sorted := SortBy(all, Ranking(kind));
    assert board == sorted[..10];
    PrefixMultiset(board, sorted);
    KeptOrFull(board, scores, e);
    LowestAreLowest(all, Ranking(kind), 10);
    assert scores[9] in multiset(scores);
  }

  /** Ten entries drawn from ten plus one either include the new one or are the old ten. */
  lemma KeptOrFull<T>(board: seq<T>, scores: seq<T>, e: T)
    requires multiset(board) <= multiset(scores + [e]) && |board| == |scores|
    ensures e in board || multiset(board) == multiset(scores)
  {
    if e !in board {
      assert multiset(scores + [e]) == multiset(scores) + multiset{e};
      assert multiset(board)[e] == 0;
      assert multiset(board) <= multiset(scores);
      SameSizeSubMultiset(multiset(board), multiset(scores));
    }
  }

  /** A sub-multiset of the same size is the whole. */
  lemma SameSizeSubMultiset<T>(a: multiset<T>, b: multiset<T>)
    requires a <= b && |a| == |b|
    ensures a == b
  {
    var d := b - a;
    assert b == a + d;
    assert |b| == |a| + |d|;
    assert d == multiset{};
  }

  /** The characters `trim` removes: the ASCII spaces and line breaks, the
      no-break space and the byte-order mark. */
  predicate IsSpace(c: char) {
    c in {' ', '\t', '\n', '\r', '\U{000B}', '\U{000C}', '\U{00A0}', '\U{FEFF}'}
  }

  predicate IsLetter(c: char) { 'a' <= c <= 'z' || 'A' <= c <= 'Z' }

  predicate IsCapital(c: char) { 'A' <= c <= 'Z' }

  /** Drops leading spaces. */
  function TrimStart(s: string): (r: string)
    ensures |r| <= |s| && r == s[|s| - |r|..]
    ensures |r| > 0 ==> !IsSpace(r[0])
    ensures forall i | 0 <= i < |s| - |r| :: IsSpace(s[i])
  {
    if |s| > 0 && IsSpace(s[0]) then TrimStart(s[1..]) else s
  }

  /** Drops trailing spaces. */
  function TrimEnd(s: string): (r: string)
    ensures |r| <= |s| && r == s[..|r|]
    ensures |r| > 0 ==> !IsSpace(r[|r| - 1])
    ensures forall i | |r| <= i < |s| :: IsSpace(s[i])
  {
    if |s| > 0 && IsSpace(s[|s| - 1]) then TrimEnd(s[..|s| - 1]) else s
  }

  /** `s.trim()`. */
  function Trim(s: string): (r: string)
    ensures |r| > 0 ==> !IsSpace(r[0]) && !IsSpace(r[|r| - 1])
  {
    TrimStart(TrimEnd(s))
  }

  predicate AllSpace(s: string) { forall i | 0 <= i < |s| :: IsSpace(s[i]) }

  /** What `trim` leaves is a stretch of the input with only white space
      before and after it. */
  lemma TrimIsSlice(s: string)
    ensures exists a | 0 <= a <= |s| - |Trim(s)| ::
              s[a..a + |Trim(s)|] == Trim(s) && AllSpace(s[..a]) && AllSpace(s[a + |Trim(s)|..])
  {
    var e := TrimEnd(s);
    var r := TrimStart(e);
    var a := |e| - |r|;
    assert e == s[..|e|] && r == e[a..];
    assert s[a..a + |r|] == r;
    var before := s[..a];
    forall i | 0 <= i < |before| ensures IsSpace(before[i]) {
      assert before[i] == e[i];
    }
    var after := s[a + |r|..];
    forall i | 0 <= i < |after| ensures IsSpace(after[i]) {
      assert after[i] == s[|e| + i];
    }
    assert Trim(s) == r;
    assert s[a..a + |r|] == r && AllSpace(before) && AllSpace(after);
  }

  /** Upper-cases the ASCII letters. */
  function Upper(c: char): (u: char)
    ensures IsLetter(c) ==> IsCapital(u)
    ensures !IsLetter(c) ==> u == c
    ensures 'A' <= c <= 'Z' ==> u == c
    ensures 'a' <= c <= 'z' ==> u as int - 'A' as int == c as int - 'a' as int
  {
    if 'a' <= c <= 'z' then (c as int - 'a' as int + 'A' as int) as char else c
  }

  /** `s.toUpperCase()` for ASCII letters. */
  function ToUpper(s: string): (r: string)
    ensures |r| == |s| && forall i | 0 <= i < |s| :: r[i] == Upper(s[i])
  {
    seq(|s|, i requires 0 <= i < |s| => Upper(s[i]))
  }

  /** The initials check of the score submission: the trimmed, upper-cased
      input must be exactly three capitals A-Z; otherwise nothing is saved. */
  function CheckInitials(raw: string): (r: Option<string>)
    ensures r.Some? ==> |r.value| == 3 && forall i | 0 <= i < 3 :: IsCapital(r.value[i])
  {
    var u := ToUpper(Trim(raw));
    if |u| == 3 && forall i | 0 <= i < 3 :: IsCapital(u[i]) then Some(u) else None
  }

  /** The input is accepted exactly when, trimmed, it is three ASCII
      letters of either case, and then it is saved upper-cased. */
  lemma CheckInitialsExactly(raw: string)
    ensures CheckInitials(raw).Some? <==> |Trim(raw)| == 3 && forall i | 0 <= i < 3 :: IsLetter(Trim(raw)[i])
    ensures CheckInitials(raw).Some? ==> CheckInitials(raw).value == ToUpper(Trim(raw))
  {
    var t := Trim(raw);
    var u := ToUpper(t);
    if |t| == 3 {
      forall i | 0 <= i < 3 ensures IsCapital(u[i]) <==> IsLetter(t[i]) {
        assert u[i] == Upper(t[i]);
      }
    }
  }

  /** Spaces around the letters do not matter. */
  lemma CheckInitialsPadded(pre: string, letters: string, post: string)
    requires forall i | 0 <= i < |pre| :: IsSpace(pre[i])
    requires forall i | 0 <= i < |post| :: IsSpace(post[i])
    requires |letters| == 3 && forall i | 0 <= i < 3 :: IsLetter(letters[i])
    ensures CheckInitials(pre + letters + post) == Some(ToUpper(letters))
  {
    var s := pre + letters + post;
    TrimEndPadded(pre + letters, post);
    assert (pre + letters + post)[..|pre + letters|] == pre + letters;
    TrimStartPadded(pre, letters);
    CheckInitialsExactly(s);
  }

  lemma {:induction false} TrimEndPadded(s: string, post: string)
    requires forall i | 0 <= i < |post| :: IsSpace(post[i])
    requires |s| > 0 && !IsSpace(s[|s| - 1])
    ensures TrimEnd(s + post) == s
    decreases |post|
  {
    if |post| > 0 {
      var p := post[..|post| - 1];
      assert (s + post)[..|s + post| - 1] == s + p;
      TrimEndPadded(s, p);
    } else {
      assert s + post == s;
    }
  }

  lemma {:induction false} TrimStartPadded(pre: string, s: string)
    requires forall i | 0 <= i < |pre| :: IsSpace(pre[i])
    requires |s| > 0 && !IsSpace(s[0])
    ensures TrimStart(pre + s) == s
    decreases |pre|
  {
    if |pre| > 0 {
      assert (pre + s)[1..] == pre[1..] + s;
      TrimStartPadded(pre[1..], s);
    } else {
      assert pre + s == s;
    }
  }

  datatype Grade = A | B | C | F

  /** The order of grades, F lowest. */
  function GradeRank(g: Grade): nat {
    match g
    case F => 0
    case C => 1
    case B => 2
    case A => 3
  }

  /** `showFinalMessage`: A from 90%, B from 80%, C from 70%, otherwise F.
      The accuracy is in hundredths of a percent; `NaN` compares false
      with every threshold and gets F. */
  function GradeOf(accuracy: Option<int>): (g: Grade)
    ensures accuracy.None? ==> g == F
  {
    if accuracy.None? then F
    else if accuracy.value >= 9000 then A
    else if accuracy.value >= 8000 then B
    else if accuracy.value >= 7000 then C
    else F
  }

  /** A higher accuracy never earns a lower grade. */
  lemma GradeMonotone(a: int, b: int)
    requires a <= b
    ensures GradeRank(GradeOf(Some(a))) <= GradeRank(GradeOf(Some(b)))
  {
  }

  /** The grade rises exactly at the thresholds: each grade from A down is
      reached at 90, 80 and 70 percent and not one hundredth below. */
  lemma GradeThresholds(x: int)
    ensures GradeRank(GradeOf(Some(x))) >= 3 <==> x >= 9000
    ensures GradeRank(GradeOf(Some(x))) >= 2 <==> x >= 8000
    ensures GradeRank(GradeOf(Some(x))) >= 1 <==> x >= 7000
  {
  }
}
