/** Decimal rendering of the numbers the backend puts into text: Python's
    `str(n)` for a natural number and `repr` of a percentage that was
    rounded to two decimals, together with their readers. */
module Decimal {
  import opened Results

  predicate IsDigit(c: char) {
    '0' <= c <= '9'
  }

  predicate AllDigits(s: string) {
    forall i :: 0 <= i < |s| ==> IsDigit(s[i])
  }

  function DigitChar(d: nat): (c: char)
    requires d < 10
    ensures IsDigit(c)
  {
    ('0' as int + d) as char
  }

  function DigitValue(c: char): (d: nat)
    requires IsDigit(c)
    ensures d < 10 && DigitChar(d) == c
  {
    c as int - '0' as int
  }

  /** `str(n)`: the shortest decimal numeral of `n`, without leading zeros. */
  function NatText(n: nat): (s: string)
    ensures |s| >= 1 && AllDigits(s)
    ensures s[0] == '0' ==> s == "0"
  {
    if n < 10 then [DigitChar(n)] else NatText(n / 10) + [DigitChar(n % 10)]
  }

  /** The number a numeral denotes, leading zeros allowed. */
  function NumeralValue(s: string): nat
    requires AllDigits(s)
  {
    if |s| == 0 then 0 else NumeralValue(s[..|s| - 1]) * 10 + DigitValue(s[|s| - 1])
  }

  /** Reading back a rendered natural number gives the number. */
  lemma {:induction false} NatTextRoundTrip(n: nat)
    ensures NumeralValue(NatText(n)) == n
  {
    if n >= 10 {
      var s := NatText(n);
      NatTextRoundTrip(n / 10);
      assert s[..|s| - 1] == NatText(n / 10);
    } else {
      assert DigitValue(DigitChar(n)) == n;
    }
  }

  /** The one- or two-digit tail of a percentage after its decimal point:
      Python's shortest `repr` keeps one digit and drops a trailing zero. */
  function FractionText(f: nat): string
    requires f < 100
  {
    if f % 10 == 0 then [DigitChar(f / 10)] else [DigitChar(f / 10), DigitChar(f % 10)]
  }

  /** `repr(h / 100)` for a float holding `h` hundredths, as f-strings show
      `round(percentage, 2)`: "100.0", "12.3", "12.34", "0.05". */
  function PercentText(h: nat): (s: string)
    ensures |s| >= 3 && '.' in s
  {
    NatText(h / 100) + "." + FractionText(h % 100)
  }

  /** Reads text of the form `digits.d` or `digits.dd` as hundredths. */
  function ReadPercent(s: string): (r: Option<nat>)
  {
    if |s| >= 3 && s[|s| - 2] == '.' && AllDigits(s[..|s| - 2]) && IsDigit(s[|s| - 1]) then
      Some(NumeralValue(s[..|s| - 2]) * 100 + DigitValue(s[|s| - 1]) * 10)
    else if |s| >= 4 && s[|s| - 3] == '.' && AllDigits(s[..|s| - 3])
         && IsDigit(s[|s| - 2]) && IsDigit(s[|s| - 1]) then
      Some(NumeralValue(s[..|s| - 3]) * 100 + DigitValue(s[|s| - 2]) * 10 + DigitValue(s[|s| - 1]))
    else
      None
  }

  /** The first reading applies to text ending in a point and one digit. */
  lemma ReadPointDigit(s: string, w: string, c: char)
    requires |s| >= 3 && w == s[..|s| - 2] && AllDigits(w) && s[|s| - 2] == '.' && s[|s| - 1] == c
    requires IsDigit(c)
    ensures ReadPercent(s) == Some(NumeralValue(w) * 100 + DigitValue(c) * 10)
  {
  }

  /** The second reading applies to text ending in a point and two digits. */
  lemma ReadPointDigits(s: string, w: string, c: char, c': char)
    requires |s| >= 4 && w == s[..|s| - 3] && AllDigits(w) && s[|s| - 3] == '.'
    requires s[|s| - 2] == c && s[|s| - 1] == c' && IsDigit(c) && IsDigit(c')
    ensures ReadPercent(s) == Some(NumeralValue(w) * 100 + DigitValue(c) * 10 + DigitValue(c'))
  {
  }

  /** Where the parts of `whole.c` sit. */
  lemma PointDigitShape(whole: string, c: char)
    ensures var s := whole + "." + [c];
      |s| == |whole| + 2 && s[..|s| - 2] == whole && s[|s| - 2] == '.' && s[|s| - 1] == c
  {
    var s := whole + "." + [c];
    assert s[..|s| - 2] == whole;
  }

  /** Where the parts of `whole.cc'` sit. */
  lemma PointDigitsShape(whole: string, c: char, c': char)
    ensures var s := whole + "." + [c, c'];
      |s| == |whole| + 3 && s[..|s| - 3] == whole && s[|s| - 3] == '.' && s[|s| - 2] == c && s[|s| - 1] == c'
  {
    var s := whole + "." + [c, c'];
    assert s[..|s| - 3] == whole;
  }

  /** Reading `digits.d` back. */
  lemma ReadOneDecimal(whole: string, d: nat)
    requires |whole| > 0 && AllDigits(whole) && d < 10
    ensures ReadPercent(whole + "." + [DigitChar(d)]) == Some(NumeralValue(whole) * 100 + d * 10)
  {
    var c := DigitChar(d);
    PointDigitShape(whole, c);
    ReadPointDigit(whole + "." + [c], whole, c);
    assert DigitValue(c) == d;
  }

  /** Reading `digits.dd` back. */
  lemma ReadTwoDecimals(whole: string, d: nat, e: nat)
    requires |whole| > 0 && AllDigits(whole) && d < 10 && 0 < e < 10
    ensures ReadPercent(whole + "." + [DigitChar(d), DigitChar(e)])
      == Some(NumeralValue(whole) * 100 + d * 10 + e)
  {
    var c, c' := DigitChar(d), DigitChar(e);
    PointDigitsShape(whole, c, c');
    ReadPointDigits(whole + "." + [c, c'], whole, c, c');
    assert DigitValue(c) == d && DigitValue(c') == e;
  }

  /** The rendered percentage determines the hundredths it was made from. */
  lemma PercentTextRoundTrip(h: nat)
    ensures ReadPercent(PercentText(h)) == Some(h)
  {
    var whole := NatText(h / 100);
    var f := h % 100;
    NatTextRoundTrip(h / 100);
    if f % 10 == 0 {
      ReadOneDecimal(whole, f / 10);
    } else {
      ReadTwoDecimals(whole, f / 10, f % 10);
    }
  }

  /** Distinct percentages render differently. */
  lemma PercentTextInjective(h1: nat, h2: nat)
    requires PercentText(h1) == PercentText(h2)
    ensures h1 == h2
  {
    PercentTextRoundTrip(h1);
    PercentTextRoundTrip(h2);
  }
}
