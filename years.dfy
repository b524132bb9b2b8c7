/**
 * Year extraction from a Date span: the first match of `\b(18|19|20)\d{2}\b`
 * or of `\b\d{4}\b`, and the integer value that orders the kept years.
 * `\d` and `\b` are read over ASCII digits and ASCII word characters.
 */
module Years {
  import opened Outcomes

  /** Which date pattern a script uses. */
  datatype DateRule =
    /** `\b(18|19|20)\d{2}\b` */
    | CenturyYears
    /** `\b\d{4}\b` */
    | AnyFourDigits

  predicate IsDigit(c: char) {
    '0' <= c <= '9'
  }

  /** `\w` on ASCII: letters, digits and underscore. */
  predicate IsWordChar(c: char) {
    IsDigit(c) || ('a' <= c <= 'z') || ('A' <= c <= 'Z') || c == '_'
  }

  predicate AllDigits(s: string) {
    forall k :: 0 <= k < |s| ==> IsDigit(s[k])
  }

  /** `(18|19|20)` */
  predicate CenturyPrefix(s: string)
    requires |s| >= 2
  {
    (s[0] == '1' && (s[1] == '8' || s[1] == '9')) || (s[0] == '2' && s[1] == '0')
  }

  /** The pattern of `rule` matches `text` at position `i`. */
  predicate MatchAt(text: string, i: int, rule: DateRule) {
    && 0 <= i && i + 4 <= |text|
    && AllDigits(text[i..i + 4])
    && (rule == CenturyYears ==> CenturyPrefix(text[i..i + 4]))
    && (i == 0 || !IsWordChar(text[i - 1]))
    && (i + 4 == |text| || !IsWordChar(text[i + 4]))
  }

  /** The leftmost match at or after position `from`. */
  function SearchFrom(text: string, rule: DateRule, from: nat): (r: Option<nat>)
    ensures r.Some? ==> from <= r.value && MatchAt(text, r.value, rule)
    ensures r.Some? ==> forall j :: from <= j < r.value ==> !MatchAt(text, j, rule)
    ensures r.None? ==> forall j :: from <= j ==> !MatchAt(text, j, rule)
    decreases |text| - from
  {
    if from + 4 > |text| then None
    else if MatchAt(text, from, rule) then Some(from)
    else SearchFrom(text, rule, from + 1)
  }

  /** `re.search(pattern, text)` followed by `match.group(0)`. */
  function FirstYear(text: string, rule: DateRule): (r: Option<string>)
    ensures r.None? <==> forall j :: !MatchAt(text, j, rule)
    ensures r.Some? ==> exists i :: MatchAt(text, i, rule) && r.value == text[i..i + 4]
                                    && forall j :: 0 <= j < i ==> !MatchAt(text, j, rule)
  {
    match SearchFrom(text, rule, 0)
    case None => None
    case Some(i) => Some(text[i..i + 4])
  }

  /** A kept year is four digits, and for `CenturyYears` begins with 18, 19 or 20. */
  lemma FirstYearShape(text: string, rule: DateRule)
    requires FirstYear(text, rule).Some?
    ensures var y := FirstYear(text, rule).value;
            |y| == 4 && AllDigits(y) && (rule == CenturyYears ==> CenturyPrefix(y))
  {
  }

  /** Every `(18|19|20)` year is also a four-digit number, so `\b\d{4}\b` never finds less. */
  lemma CenturyImpliesAnyFour(text: string, i: int)
    requires MatchAt(text, i, CenturyYears)
    ensures MatchAt(text, i, AnyFourDigits)
  {
  }

  /** A kept year matched again gives itself back. */
  lemma {:induction false} FirstYearIdempotent(text: string, rule: DateRule)
    requires FirstYear(text, rule).Some?
    ensures FirstYear(FirstYear(text, rule).value, rule) == FirstYear(text, rule)
  {
    var y := FirstYear(text, rule).value;
    var i :| MatchAt(text, i, rule) && y == text[i..i + 4];
    assert y[0..4] == y;
    assert MatchAt(y, 0, rule);
  }

  /** The year is the one at the leftmost match. */
  lemma FirstYearAt(text: string, rule: DateRule, i: int)
    requires MatchAt(text, i, rule) && forall j :: 0 <= j < i ==> !MatchAt(text, j, rule)
    ensures FirstYear(text, rule) == Some(text[i..i + 4])
  {
    var r := SearchFrom(text, rule, 0);
    assert r.Some? && r.value == i;
  }

  lemma ExampleSentence()
    ensures FirstYear("in 1987.", CenturyYears) == Some("1987")
  {
    var t := "in 1987.";
    assert t[0] == 'i' && t[1] == 'n' && t[2] == ' ' && t[7] == '.';
    assert t[3..7] == "1987";
    assert MatchAt(t, 3, CenturyYears);
    forall j | 0 <= j < 3 ensures !MatchAt(t, j, CenturyYears) {
      assert t[j..j + 4][0] == t[j];
    }
    FirstYearAt(t, CenturyYears, 3);
  }

  lemma ExampleNoYear()
    ensures FirstYear("sometime last year", CenturyYears) == None
  {
    var t := "sometime last year";
    assert forall j :: !MatchAt(t, j, CenturyYears) by {
      forall j | 0 <= j && j + 4 <= |t| ensures !IsDigit(t[j]) {
      }
    }
  }

  /** `\b\d{4}\b` keeps 0042; the century pattern does not. */
  lemma ExampleLeadingZeros()
    ensures FirstYear("0042", AnyFourDigits) == Some("0042")
    ensures FirstYear("0042", CenturyYears) == None
  {
    assert MatchAt("0042", 0, AnyFourDigits);
    FirstYearAt("0042", AnyFourDigits, 0);
    assert "0042"[0..4] == "0042";
    assert !MatchAt("0042", 0, CenturyYears);
  }

  /** A five-digit run has no word boundary after its fourth digit. */
  lemma ExampleNoBoundary()
    ensures FirstYear("19871", AnyFourDigits) == None
  {
    assert !MatchAt("19871", 0, AnyFourDigits);
    assert !MatchAt("19871", 1, AnyFourDigits);
  }

  // ------------------------------------------------------------ int(year)

  function DigitValue(c: char): nat
    requires IsDigit(c)
  {
    c as int - '0' as int
  }

  /** `int(s)` for a string of ASCII digits. */
  function Value(s: string): (v: nat)
    requires AllDigits(s)
  {
    if s == [] then 0 else 10 * Value(s[..|s| - 1]) + DigitValue(s[|s| - 1])
  }

  /** The last digit and the rest are read back from a value. */
  lemma DigitSplit(x: int, d: int, y: int, e: int)
    requires 0 <= d < 10 && 0 <= e < 10 && 10 * x + d == 10 * y + e
    ensures x == y && d == e
  {
  }

  /** Digit strings of one length have distinct values, so `key=int` orders
      the four-digit years strictly. */
  lemma {:induction false} ValueInjective(a: string, b: string)
    requires |a| == |b| && AllDigits(a) && AllDigits(b)
    requires Value(a) == Value(b)
    ensures a == b
    decreases |a|
  {
    if a != [] {
      var n := |a| - 1;
      assert AllDigits(a[..n]) && AllDigits(b[..n]);
      DigitSplit(Value(a[..n]), DigitValue(a[n]), Value(b[..n]), DigitValue(b[n]));
      ValueInjective(a[..n], b[..n]);
      assert a == a[..n] + [a[n]] && b == b[..n] + [b[n]];
    }
  }
}
