/**
 * The two string-to-number conversions the configuration layer uses:
 * JavaScript's `Number(s)` (behind zod's `z.coerce.number()`) and
 * `parseInt(s, 10)` (in the throttle namespace), restricted to decimal
 * notation: an optional sign, digits, and an optional fractional part.
 */
module JsNumbers {
  import opened Wrappers
  import opened Strings

  predicate IsDigit(c: char) {
    '0' <= c <= '9'
  }

  predicate AllDigits(s: string) {
    forall i :: 0 <= i < |s| ==> IsDigit(s[i])
  }

  /** The value of a string of decimal digits, most significant first. */
  function DigitsValue(s: string): nat
    requires AllDigits(s)
  {
    if s == [] then 0 else DigitsValue(s[..|s| - 1]) * 10 + (s[|s| - 1] as int - '0' as int)
  }

  function DigitChar(d: nat): (c: char)
    requires d < 10
    ensures IsDigit(c) && c as int - '0' as int == d
  {
    ('0' as int + d) as char
  }

  /** The decimal rendering of a natural number; reading it back gives the number. */
  function ShowNat(n: nat): (s: string)
    ensures s != [] && AllDigits(s)
    ensures DigitsValue(s) == n
  {
    if n < 10 then [DigitChar(n)]
    else
      var s := ShowNat(n / 10) + [DigitChar(n % 10)];
      assert s[..|s| - 1] == ShowNat(n / 10);
      s
  }

  /**
   * A JavaScript number as far as this model needs it: NaN, or a finite
   * decimal with a sign, the value of its integer digits and its fraction digits.
   */
  datatype JsNumber = NaN | Finite(negative: bool, whole: nat, fraction: string) {

    /** `Number.isInteger`: every fraction digit is zero. */
    predicate IsInteger() {
      Finite? && forall i :: 0 <= i < |fraction| ==> fraction[i] == '0'
    }

    /** The value with its fraction dropped (exact when IsInteger()). */
    function Truncated(): int
      requires Finite?
    {
      if negative then -(whole as int) else whole
    }
  }

  /**
   * `Number(s)`: surrounding whitespace is ignored, the empty string is 0, and
   * otherwise the text must be an optional sign followed by digits with at most
   * one decimal point and at least one digit; anything else is NaN.
   */
  function ToNumber(s: string): (x: JsNumber)
    ensures Trim(s) == [] ==> x == Finite(false, 0, [])
    ensures x.Finite? ==> AllDigits(x.fraction)
    ensures x.Finite? && Trim(s) != [] ==> IsDigit(Trim(s)[0]) || Trim(s)[0] in "+-."
  {
    var t := Trim(s);
    if t == [] then Finite(false, 0, [])
    else
      NotNumeralStart(false, t);
      SignedDecimal(t)
  }

  /** A non-empty trimmed numeral: an optional sign, then an unsigned decimal. */
  function SignedDecimal(t: string): JsNumber
    requires t != []
  {
    var negative := t[0] == '-';
    var body := if t[0] == '-' || t[0] == '+' then t[1..] else t;
    UnsignedDecimal(negative, body)
  }

  /** Digits with at most one decimal point and at least one digit. */
  function UnsignedDecimal(negative: bool, body: string): JsNumber {
    var pieces := Split(body, '.');
    if |pieces| > 2 then NaN
    else
      var whole := pieces[0];
      var fraction := if |pieces| == 2 then pieces[1] else [];
      if AllDigits(whole) && AllDigits(fraction) && (whole != [] || fraction != []) then
        Finite(negative, DigitsValue(whole), fraction)
      else NaN
  }

  /** A body that starts with neither a digit nor a point is not a number. */
  lemma NotNumeralStart(negative: bool, body: string)
    requires body != []
    ensures body[0] != '.' && !IsDigit(body[0]) ==> UnsignedDecimal(negative, body) == NaN
  {
    if body[0] != '.' && !IsDigit(body[0]) {
      assert body == [body[0]] + body[1..];
      SplitCons(body[0], body[1..], '.');
      var whole := Split(body, '.')[0];
      assert whole == [body[0]] + Split(body[1..], '.')[0];
      assert whole[0] == body[0];
    }
  }

  /** The longest prefix of `s` made of decimal digits. */
  function LeadingDigits(s: string): (d: string)
    ensures |d| <= |s| && d == s[..|d|] && AllDigits(d)
    ensures |d| == |s| || !IsDigit(s[|d|])
  {
    if s != [] && IsDigit(s[0]) then [s[0]] + LeadingDigits(s[1..]) else []
  }

  /**
   * `parseInt(s, 10)`: leading whitespace is skipped, an optional sign is read,
   * then the longest run of digits; with no digit the result is NaN (None).
   */
  function ParseInt(s: string): (r: Option<int>)
    ensures r.Some? <==>
              var t := TrimStart(s);
              t != [] && (IsDigit(t[0]) || (t[0] in "+-" && |t| > 1 && IsDigit(t[1])))
  {
    var t := TrimStart(s);
    var rest := if t != [] && (t[0] == '-' || t[0] == '+') then t[1..] else t;
    assert LeadingDigits(rest) != [] <==> rest != [] && IsDigit(rest[0]);
    SignedDigits(t)
  }

  /** An optional sign, then the longest run of digits. */
  function SignedDigits(t: string): Option<int> {
    var negative := t != [] && t[0] == '-';
    var rest := if t != [] && (t[0] == '-' || t[0] == '+') then t[1..] else t;
    var digits := LeadingDigits(rest);
    if digits == [] then None
    else
      var magnitude: int := DigitsValue(digits);
      Some(if negative then -magnitude else magnitude)
  }

  lemma {:induction false} LeadingDigitsOf(d: string, x: string)
    requires AllDigits(d)
    requires x == [] || !IsDigit(x[0])
    ensures LeadingDigits(d + x) == d
  {
    if d != [] {
      assert (d + x)[1..] == d[1..] + x;
      LeadingDigitsOf(d[1..], x);
    } else {
      assert d + x == x;
    }
  }

  /** `parseInt` reads the digit run and stops at the first non-digit (`"12abc"` gives 12). */
  lemma ParseIntStopsAtNonDigit(d: string, tail: string)
    requires d != [] && AllDigits(d)
    requires tail == [] || !IsDigit(tail[0])
    ensures ParseInt(d + tail) == Some(DigitsValue(d))
  {
    LeadingDigitsOf(d, tail);
    DigitFirstUntrimmed(d + tail);
    SignedDigitsOfDigitFirst(d + tail);
  }

  /** A string that starts with a digit has no leading whitespace. */
  lemma DigitFirstUntrimmed(s: string)
    requires s != [] && IsDigit(s[0])
    ensures TrimStart(s) == s
  {
  }

  /** With no sign, the digit run is read as it stands. */
  lemma SignedDigitsOfDigitFirst(s: string)
    requires s != [] && IsDigit(s[0])
    ensures LeadingDigits(s) != []
    ensures SignedDigits(s) == Some(DigitsValue(LeadingDigits(s)))
  {
  }

  /** A string without a decimal point is its own single piece. */
  lemma SplitWithoutSeparator(s: string, sep: char)
    requires sep !in s
    ensures Split(s, sep) == [s]
  {
    JoinSplit(s, sep);
  }

  /** A numeral without surrounding whitespace is read as it stands. */
  lemma ToNumberOfTrimmed(t: string)
    requires t != [] && EdgeTrimmed(t)
    ensures ToNumber(t) == SignedDecimal(t)
  {
    TrimmedIsFixed(t);
  }

  /** A numeral that starts with a digit has no sign. */
  lemma UnsignedWhenDigitFirst(t: string)
    requires t != [] && IsDigit(t[0])
    ensures SignedDecimal(t) == UnsignedDecimal(false, t)
  {
  }

  /** The rendering of a natural number reads back through `Number`. */
  lemma ToNumberShowNat(n: nat)
    ensures ToNumber(ShowNat(n)) == Finite(false, n, [])
  {
    var s := ShowNat(n);
    assert IsDigit(s[0]) && IsDigit(s[|s| - 1]);
    TrimmedIsFixed(s);
    UnsignedShowNat(false, n);
  }

  /** A rendered natural number with a minus sign reads back as its negation. */
  lemma ToNumberNegatedShowNat(n: nat)
    ensures ToNumber("-" + ShowNat(n)) == Finite(true, n, [])
  {
    var d := ShowNat(n);
    var t := "-" + d;
    assert t[0] == '-' && t[|t| - 1] == d[|d| - 1] && IsDigit(d[|d| - 1]);
    TrimmedIsFixed(t);
    assert t[1..] == d;
    UnsignedShowNat(true, n);
  }

  lemma UnsignedShowNat(negative: bool, n: nat)
    ensures UnsignedDecimal(negative, ShowNat(n)) == Finite(negative, n, [])
  {
    var s := ShowNat(n);
    assert forall i :: 0 <= i < |s| ==> s[i] != '.';
    SplitWithoutSeparator(s, '.');
  }

  /** Digits, a point and more digits read back as a whole part and a fraction. */
  lemma ToNumberDecimal(w: nat, f: string)
    requires f != [] && AllDigits(f)
    ensures ToNumber(ShowNat(w) + "." + f) == Finite(false, w, f)
  {
    var d := ShowNat(w);
    var t := d + "." + f;
    DecimalShape(d, f);
    TrimmedIsFixed(t);
    UnsignedWhenDigitFirst(t);
    SplitDecimal(d, f);
  }

  lemma DecimalShape(d: string, f: string)
    requires d != [] && AllDigits(d) && f != [] && AllDigits(f)
    ensures IsDigit((d + "." + f)[0]) && EdgeTrimmed(d + "." + f)
  {
    var t := d + "." + f;
    assert t[0] == d[0] && t[|t| - 1] == f[|f| - 1];
  }

  lemma SplitDecimal(d: string, f: string)
    requires AllDigits(d) && AllDigits(f)
    ensures Split(d + "." + f, '.') == [d, f]
  {
    assert '.' !in d && '.' !in f by {
      assert forall i :: 0 <= i < |d| ==> d[i] != '.';
      assert forall i :: 0 <= i < |f| ==> f[i] != '.';
    }
    assert d + "." + f == d + ("." + f);
    SplitAfterPlainPrefix(d, "." + f, '.');
    assert ("." + f)[1..] == f;
    SplitWithoutSeparator(f, '.');
    assert Split("." + f, '.') == [[], f];
    assert d + [] == d;
  }

  /**
   * A numeral whose first character is neither a sign, a digit nor a point,
   * and that has no point at all, is NaN.
   */
  lemma ToNumberNotNumeral(t: string)
    requires t != [] && EdgeTrimmed(t) && '.' !in t
    requires t[0] != '-' && t[0] != '+' && !IsDigit(t[0])
    ensures ToNumber(t) == NaN
  {
    TrimmedIsFixed(t);
    SplitWithoutSeparator(t, '.');
  }


  /** Trimming the end of the start-trimmed string leaves a whitespace tail behind the trim. */
  lemma TrimStartIsTrimPlusWhitespace(s: string)
    ensures TrimStart(s) == Trim(s) + TrimStart(s)[|Trim(s)|..]
    ensures AllWhitespace(TrimStart(s)[|Trim(s)|..])
  {
    TrimEndSplits(TrimStart(s));
  }

  /** A numeric body is its integer digits, then a point and the fraction digits if there was a point. */
  lemma BodyShape(body: string)
    requires |Split(body, '.')| <= 2
    ensures |Split(body, '.')| == 2 ==> body == Split(body, '.')[0] + (['.'] + Split(body, '.')[1])
    ensures |Split(body, '.')| == 1 ==> body == Split(body, '.')[0]
  {
    JoinSplit(body, '.');
  }

  /** The digit run `parseInt` reads from a numeral followed by whitespace is its integer digits. */
  lemma LeadingDigitsOfDecimal(negative: bool, body: string, ws: string)
    requires UnsignedDecimal(negative, body).Finite? && UnsignedDecimal(negative, body).whole > 0
    requires AllWhitespace(ws)
    ensures LeadingDigits(body + ws) == Split(body, '.')[0]
    ensures DigitsValue(Split(body, '.')[0]) == UnsignedDecimal(negative, body).whole
  {
    var pieces := Split(body, '.');
    BodyShape(body);
    var whole := pieces[0];
    assert AllDigits(whole);
    if |pieces| == 2 {
      var after := ['.'] + pieces[1] + ws;
      Regroup(whole, ['.'] + pieces[1], ws);
      LeadingDigitsOf(whole, after);
    } else {
      assert body + ws == whole + ws;
      LeadingDigitsOf(whole, ws);
    }
  }

  /** Whitespace after a signed numeral does not change what `parseInt` reads. */
  lemma SignedDigitsOfDecimal(t: string, ws: string)
    requires t != [] && SignedDecimal(t).Finite? && SignedDecimal(t).whole > 0
    requires AllWhitespace(ws)
    ensures SignedDigits(t + ws) == Some(SignedDecimal(t).Truncated())
  {
    var u := t + ws;
    assert u[0] == t[0];
    var body := if t[0] == '-' || t[0] == '+' then t[1..] else t;
    var rest := if u[0] == '-' || u[0] == '+' then u[1..] else u;
    assert rest == body + ws;
    LeadingDigitsOfDecimal(t[0] == '-', body, ws);
  }

  /**
   * Whenever `Number(s)` is finite with a non-zero integer part, `parseInt(s, 10)`
   * reads the same sign and integer part: it truncates that number toward zero.
   */
  lemma ParseIntTruncatesNumber(s: string)
    requires ToNumber(s).Finite? && ToNumber(s).whole > 0
    ensures ParseInt(s) == Some(ToNumber(s).Truncated())
  {
    TrimStartIsTrimPlusWhitespace(s);
    SignedDigitsOfDecimal(Trim(s), TrimStart(s)[|Trim(s)|..]);
  }
}
