/** Number-to-text helpers: `Number.prototype.toString()` for integers and its
    inverse, `padStart` with zeros, JavaScript's truncating `%`, and the
    helpers of mod/js/utils.js (`getSuitLetter`, `getOrdinalSuffix`,
    `getOrdinal`), which every variant repeats verbatim. */
module Text {
  import opened Base

  predicate IsDigit(c: char) { '0' <= c <= '9' }

  predicate AllDigits(s: string) { forall i :: 0 <= i < |s| ==> IsDigit(s[i]) }

  function DigitChar(d: nat): (c: char)
    requires d < 10
    ensures IsDigit(c)
  {
    ['0', '1', '2', '3', '4', '5', '6', '7', '8', '9'][d]
  }

  function DigitValue(c: char): (d: nat)
    requires IsDigit(c)
    ensures d < 10
  {
    (c as int - '0' as int) as nat
  }

  lemma DigitRoundTrip(d: nat)
    requires d < 10
    ensures DigitValue(DigitChar(d)) == d
  {
  }

  /** `n.toString()` for a non-negative integer: decimal digits, no leading zero. */
  function DecimalString(n: nat): (s: string)
    ensures |s| >= 1 && AllDigits(s)
    ensures n >= 10 ==> s[0] != '0'
    decreases n
  {
    if n < 10 then [DigitChar(n)] else DecimalString(n / 10) + [DigitChar(n % 10)]
  }

  /** The value of a string of decimal digits (leading zeros allowed). */
  function ParseDecimal(s: string): nat
    requires AllDigits(s)
    decreases |s|
  {
    if |s| == 0 then 0 else ParseDecimal(s[..|s| - 1]) * 10 + DigitValue(s[|s| - 1])
  }

  /** Reading back what `toString` wrote gives the number. */
  lemma {:induction false} ParseDecimalString(n: nat)
    ensures ParseDecimal(DecimalString(n)) == n
    decreases n
  {
    var s := DecimalString(n);
    if n < 10 {
      DigitRoundTrip(n);
    } else {
      ParseDecimalString(n / 10);
      assert s[..|s| - 1] == DecimalString(n / 10);
      DigitRoundTrip(n % 10);
    }
  }

  /** `toString` never maps two numbers to the same text. */
  lemma DecimalStringInjective(a: nat, b: nat)
    ensures DecimalString(a) == DecimalString(b) ==> a == b
  {
    ParseDecimalString(a);
    ParseDecimalString(b);
  }

  /** A four-digit number is written with four characters. */
  lemma DecimalStringLength4(n: nat)
    requires 1000 <= n <= 9999
    ensures |DecimalString(n)| == 4
  {
    assert |DecimalString(n / 1000)| == 1;
    assert |DecimalString(n / 100)| == 2;
    assert |DecimalString(n / 10)| == 3;
  }

  /** `s.padStart(width, '0')`. */
  function PadZeros(s: string, width: nat): (r: string)
    ensures width >= |s| ==> |r| == width
    ensures width <= |s| ==> r == s
    ensures r[|r| - |s|..] == s
    ensures forall i :: 0 <= i < |r| - |s| ==> r[i] == '0'
  {
    seq(Max(width - |s|, 0), _ => '0') + s
  }

  /** Leading zeros do not change the value of a digit string. */
  lemma {:induction false} ParseIgnoresLeadingZero(s: string)
    requires AllDigits(s)
    ensures ParseDecimal(['0'] + s) == ParseDecimal(s)
    decreases |s|
  {
    if |s| > 0 {
      var t := ['0'] + s;
      assert t[..|t| - 1] == ['0'] + s[..|s| - 1];
      ParseIgnoresLeadingZero(s[..|s| - 1]);
    }
  }

  lemma {:induction false} ParsePadded(s: string, width: nat)
    requires AllDigits(s)
    ensures AllDigits(PadZeros(s, width))
    ensures ParseDecimal(PadZeros(s, width)) == ParseDecimal(s)
    decreases width
  {
    if width > |s| {
      ParsePadded(s, width - 1);
      var p := PadZeros(s, width - 1);
      assert PadZeros(s, width) == ['0'] + p;
      ParseIgnoresLeadingZero(p);
    }
  }

  /** JavaScript's `a % b` for a positive divisor: the sign follows `a`. */
  function JsRem(a: int, b: int): (r: int)
    requires b > 0
    ensures a >= 0 ==> 0 <= r < b
    ensures a < 0 ==> -b < r <= 0
  {
    if a >= 0 then a % b else -((-a) % b)
  }

  /** Unlike Euclidean remainder, JavaScript's is odd: `(-a) % b == -(a % b)`. */
  lemma JsRemOdd(a: int, b: int)
    requires b > 0
    ensures JsRem(-a, b) == -JsRem(a, b)
    ensures a >= 0 ==> JsRem(a, b) == a % b
  {
  }

  /** `getSuitLetter(suit)`: the card-file letter of a party, `undefined` otherwise. */
  function SuitLetter(suit: string): (r: Option<char>)
    ensures r == Some('D') <==> suit == "democratic"
    ensures r == Some('R') <==> suit == "republican"
    ensures r == Some('O') <==> suit == "other"
    ensures r.None? <==> suit !in {"democratic", "republican", "other"}
  {
    if suit == "democratic" then Some('D')
    else if suit == "republican" then Some('R')
    else if suit == "other" then Some('O')
    else None
  }

  /** `getOrdinalSuffix(rank)`. */
  function OrdinalSuffix(rank: int): (r: string)
    ensures r in {"st", "nd", "rd", "th"}
  {
    var j := JsRem(rank, 10);
    var k := JsRem(rank, 100);
    if j == 1 && k != 11 then "st"
    else if j == 2 && k != 12 then "nd"
    else if j == 3 && k != 13 then "rd"
    else "th"
  }

  /** The English rule the suffix follows for non-negative numbers: 11th, 12th,
      13th (and 111th, ...); otherwise 1st, 2nd, 3rd by the last digit; else th. */
  lemma OrdinalSuffixRule(n: nat)
    ensures n % 100 in {11, 12, 13} ==> OrdinalSuffix(n) == "th"
    ensures n % 100 !in {11, 12, 13} && n % 10 == 1 ==> OrdinalSuffix(n) == "st"
    ensures n % 100 !in {11, 12, 13} && n % 10 == 2 ==> OrdinalSuffix(n) == "nd"
    ensures n % 100 !in {11, 12, 13} && n % 10 == 3 ==> OrdinalSuffix(n) == "rd"
    ensures n % 10 !in {1, 2, 3} ==> OrdinalSuffix(n) == "th"
    ensures OrdinalSuffix(n + 100) == OrdinalSuffix(n)
  {
    assert (n + 100) % 10 == n % 10;
    assert (n + 100) % 100 == n % 100;
  }

  /** `String(n)` for any integer. */
  function IntString(n: int): (s: string)
    ensures |s| >= 1 && (s[0] == '-' <==> n < 0) && (n >= 0 ==> IsDigit(s[0]))
  {
    if n < 0 then "-" + DecimalString(-n) else DecimalString(n)
  }

  /** `getOrdinal(rank)`: a word for 1 to 3, otherwise the number followed by its suffix. */
  function Ordinal(rank: int): (r: string)
    ensures rank == 1 <==> r == "First"
    ensures rank == 2 <==> r == "Second"
    ensures rank == 3 <==> r == "Third"
    ensures rank >= 4 ==>
              (|r| >= 3 && AllDigits(r[..|r| - 2]) && ParseDecimal(r[..|r| - 2]) == rank
               && r[|r| - 2..] == OrdinalSuffix(rank))
  {
    if rank == 1 then "First"
    else if rank == 2 then "Second"
    else if rank == 3 then "Third"
    else if rank >= 4 then
      var s := IntString(rank) + OrdinalSuffix(rank);
      ParseDecimalString(rank);
      assert s[..|s| - 2] == DecimalString(rank);
      s
    else
      var s := IntString(rank) + OrdinalSuffix(rank);
      assert s[0] == '-' || IsDigit(s[0]);
      s
  }
}
