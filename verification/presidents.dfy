/** The item catalogue and the per-item statistics.

    The catalogue is the `presidents` array of 526/NC-scripts.js; the later
    variants load the same 32 records from a JSON file, which is not part of
    this model, and the model uses these records for them too. The records are
    stored column by column (`Names`, `Suits`, `Spans`) and assembled by
    `Entry`; a term is kept as its pair of years and written out by `TermText`
    exactly as the array spells it ("1789-1797", or "1841" for a term that
    began and ended in the same year). An item is identified by its position
    `0..31` ("president index"); its `rank` is the quizzed answer in number
    mode and its `term` in years mode. */
module Presidents {
  import opened Text

  datatype President = President(name: string, suit: string, rank: int, term: string)

  /** First and last year of a term of office. */
  datatype Span = Span(start: nat, end: nat)

  /** Number of items in the catalogue. */
  const N: nat := 32

  const Names: seq<string> := [
    "Washington", "J. Adams", "Jefferson", "Madison", "Monroe", "J.Q. Adams",
    "Jackson", "Van Buren", "W.H. Harrison", "Tyler", "Polk", "Taylor",
    "Fillmore", "Pierce", "Buchanan", "Lincoln", "Johnson", "Grant",
    "Hayes", "Garfield", "Arthur", "Cleveland", "B. Harrison", "Cleveland",
    "McKinley", "T. Roosevelt", "Taft", "Wilson", "Harding", "Coolidge",
    "Hoover", "FDR"
  ]

  const Suits: seq<string> := [
    "other", "other", "democratic", "democratic", "democratic", "other",
    "democratic", "democratic", "other", "other", "democratic", "other",
    "other", "democratic", "democratic", "republican", "democratic", "republican",
    "republican", "republican", "republican", "democratic", "republican", "democratic",
    "republican", "republican", "republican", "democratic", "republican", "republican",
    "republican", "democratic"
  ]

  const Spans: seq<Span> := [
    Span(1789, 1797), Span(1797, 1801), Span(1801, 1809), Span(1809, 1817),
    Span(1817, 1825), Span(1825, 1829), Span(1829, 1837), Span(1837, 1841),
    Span(1841, 1841), Span(1841, 1845), Span(1845, 1849), Span(1849, 1850),
    Span(1850, 1853), Span(1853, 1857), Span(1857, 1861), Span(1861, 1865),
    Span(1865, 1869), Span(1869, 1877), Span(1877, 1881), Span(1881, 1881),
    Span(1881, 1885), Span(1885, 1889), Span(1889, 1893), Span(1893, 1897),
    Span(1897, 1901), Span(1901, 1909), Span(1909, 1913), Span(1913, 1921),
    Span(1921, 1923), Span(1923, 1929), Span(1929, 1933), Span(1933, 1945)
  ]

  /** The `term` text of a span: both years joined by a dash, or the single
      year when the term began and ended in the same year. */
  function TermText(s: Span): (t: string)
    ensures |t| >= 1
    ensures s.start == s.end <==> AllDigits(t)
  {
    if s.start == s.end then DecimalString(s.start)
    else
      var t := DecimalString(s.start) + "-" + DecimalString(s.end);
      assert t[|DecimalString(s.start)|] == '-';
      t
  }

  /** A year with four digits. */
  predicate FourDigitYear(y: int) { 1000 <= y <= 9999 }

  /** Four-digit years make the term text injective. */
  lemma TermTextInjective(a: Span, b: Span)
    requires FourDigitYear(a.start) && FourDigitYear(a.end)
    requires FourDigitYear(b.start) && FourDigitYear(b.end)
    ensures TermText(a) == TermText(b) ==> a == b
  {
    DecimalStringLength4(a.start);
    DecimalStringLength4(a.end);
    DecimalStringLength4(b.start);
    DecimalStringLength4(b.end);
    if TermText(a) == TermText(b) {
      if a.start == a.end && b.start == b.end {
        DecimalStringInjective(a.start, b.start);
      } else if a.start != a.end && b.start != b.end {
        var t := TermText(a);
        assert t[..4] == DecimalString(a.start) && t[5..] == DecimalString(a.end);
        assert t[..4] == DecimalString(b.start) && t[5..] == DecimalString(b.end);
        DecimalStringInjective(a.start, b.start);
        DecimalStringInjective(a.end, b.end);
      }
    }
  }

  /** The catalogue entry at a president index. */
  function Entry(i: int): (p: President)
    requires 0 <= i < N
    ensures p.rank == i + 1
  {
    President(Names[i], Suits[i], i + 1, TermText(Spans[i]))
  }

  /** `presidents[rank - 1].term`, the years-mode label of a rank. */
  function TermOf(rank: int): string
    requires 1 <= rank <= N
  {
    Entry(rank - 1).term
  }

  /** Every recorded year has four digits. */
  lemma SpansFourDigit()
    ensures forall i :: 0 <= i < N ==> FourDigitYear(Spans[i].start) && FourDigitYear(Spans[i].end)
  {
  }

  /** Terms follow each other: each starts no earlier than the previous ended,
      and lasts at least until it starts. */
  lemma SpansChronological()
    ensures forall i :: 0 <= i < N ==> Spans[i].start <= Spans[i].end
    ensures forall i :: 0 < i < N ==> Spans[i - 1].end <= Spans[i].start
  {
    forall i | 0 < i < 16 ensures Spans[i - 1].end <= Spans[i].start {
    }
    forall i | 16 <= i < N ensures Spans[i - 1].end <= Spans[i].start {
    }
  }

  /** The spans of the first sixteen entries differ pairwise. */
  lemma SpansDistinctLow()
    ensures forall i, j :: 0 <= i < j < 16 ==> Spans[i] != Spans[j]
  {
  }

  /** The spans of the last sixteen entries differ pairwise. */
  lemma SpansDistinctHigh()
    ensures forall i, j :: 16 <= i < j < N ==> Spans[i] != Spans[j]
  {
  }

  /** The first sixteen terms began before 1865, the last sixteen did not. */
  lemma SpansSplitAt1865()
    ensures forall i :: 0 <= i < 16 ==> Spans[i].start < 1865
    ensures forall j :: 16 <= j < N ==> Spans[j].start >= 1865
  {
  }

  /** No two entries share a span. */
  lemma SpansDistinct()
    ensures forall i, j :: 0 <= i < j < N ==> Spans[i] != Spans[j]
  {
    SpansDistinctLow();
    SpansDistinctHigh();
    SpansSplitAt1865();
  }

  /** No two ranks share a term label, so years mode tells every rank apart. */
  lemma TermsDistinct()
    ensures forall a, b :: 1 <= a <= N && 1 <= b <= N && a != b ==> TermOf(a) != TermOf(b)
  {
    SpansFourDigit();
    SpansDistinct();
    forall a, b | 1 <= a <= N && 1 <= b <= N && a != b ensures TermOf(a) != TermOf(b) {
      TermTextInjective(Spans[a - 1], Spans[b - 1]);
    }
  }

  /** The only name carried by two entries is Cleveland's, at ranks 22 and 24. */
  lemma ClevelandIsTheDualTerm()
    ensures forall i :: 0 <= i < N ==> (Names[i] == "Cleveland" <==> i + 1 == 22 || i + 1 == 24)
    ensures forall i, j | 0 <= i < j < N && Names[i] == Names[j] :: Names[i] == "Cleveland"
  {
  }

  /** Per-item statistics: `streak`, `totalTrials`, `corrects` and the
      `usedHints` descriptions already shown for the item. */
  datatype Stats = Stats(streak: nat, totalTrials: nat, corrects: nat, usedHints: seq<string>)

  const Fresh: Stats := Stats(0, 0, 0, [])

  /** The draft versions of the engine, which differ in a few places. */
  datatype Draft = NC526 | NC526b | NF527c | PF3 | Mod

  /** 527c, PF3 and mod/js shuffle a composed round order once more. */
  predicate ShufflesOrder(d: Draft) { !(d.NC526? || d.NC526b?) }

  /** 527c, PF3 and mod/js stay on the last item instead of stepping past it. */
  predicate StopsAtLastItem(d: Draft) { !(d.NC526? || d.NC526b?) }

  /** 527c, PF3 and mod/js remember the hints shown per item (`usedHints`)
      and forget them on play again. */
  predicate KeepsUsedHints(d: Draft) { !(d.NC526? || d.NC526b?) }

  /** 526 and 526b disable every option after a correct click. */
  predicate DisablesAll(d: Draft) { d.NC526? || d.NC526b? }
}
