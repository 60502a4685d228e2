/**
 * Python's int() and float() applied to a field of a row (autompg.py lines
 * 102-103), and the decimal text of an integer that int() reads back.
 * Numbers are exact: float() yields a real, not a binary64 value.
 */
module Numbers {
  import opened Wrappers
  import opened Text

  predicate IsDigit(c: char)
  {
    '0' <= c <= '9'
  }

  predicate DigitsAndUnderscores(s: string)
  {
    forall i :: 0 <= i < |s| ==> IsDigit(s[i]) || s[i] == '_'
  }

  /** ASCII digits, with single underscores allowed between two digits (PEP 515). */
  predicate IsNumeral(s: string)
  {
    && |s| > 0
    && DigitsAndUnderscores(s)
    && IsDigit(s[0]) && IsDigit(s[|s| - 1])
    && (forall i :: 0 <= i < |s| - 1 && s[i] == '_' ==> s[i + 1] != '_')
  }

  function DigitValue(c: char): nat
    requires IsDigit(c)
  {
    (c as int) - ('0' as int)
  }

  /** The value of the digits of `s`, underscores skipped, most significant first. */
  function NumeralValue(s: string): nat
    requires DigitsAndUnderscores(s)
    decreases |s|
  {
    if |s| == 0 then 0
    else if s[|s| - 1] == '_' then NumeralValue(s[..|s| - 1])
    else 10 * NumeralValue(s[..|s| - 1]) + DigitValue(s[|s| - 1])
  }

  /** The number of digits of `s`, underscores skipped. */
  function DigitCount(s: string): nat
    decreases |s|
  {
    if |s| == 0 then 0
    else DigitCount(s[..|s| - 1]) + (if s[|s| - 1] == '_' then 0 else 1)
  }

  function Pow10(n: nat): (p: nat)
    ensures p >= 1
  {
    if n == 0 then 1 else 10 * Pow10(n - 1)
  }

  /**
   * The whitespace int() and float() ignore around a number. CPython turns
   * every non-ASCII whitespace character into an ASCII space and then skips
   * only space, tab, newline, vertical tab, form feed and carriage return,
   * so this is str.isspace without the separators U+001C to U+001F.
   */
  predicate IsNumberSpace(c: char)
  {
    IsSpace(c) && !(0x1C <= c as int <= 0x1F)
  }

  predicate AllNumberSpace(s: string)
  {
    forall i :: 0 <= i < |s| ==> IsNumberSpace(s[i])
  }

  /** The text int() and float() read: `s` with the surrounding number whitespace removed. */
  function Strip(s: string): string
    decreases |s|
  {
    if |s| > 0 && IsNumberSpace(s[0]) then Strip(s[1..])
    else if |s| > 0 && IsNumberSpace(s[|s| - 1]) then Strip(s[..|s| - 1])
    else s
  }

  /** `t` is the slice of `s` at `i` with only number whitespace before and after it. */
  ghost predicate SliceBetweenSpaces(s: string, t: string, i: int)
  {
    0 <= i <= |s| - |t| && t == s[i..i + |t|] && AllNumberSpace(s[..i]) && AllNumberSpace(s[i + |t|..])
  }

  /**
   * The stripped text is a contiguous slice of the input with only
   * whitespace around it, and it neither starts nor ends with whitespace.
   */
  lemma {:induction false} StripSpec(s: string)
    ensures |Strip(s)| <= |s|
    ensures |Strip(s)| > 0 ==> !IsNumberSpace(Strip(s)[0]) && !IsNumberSpace(Strip(s)[|Strip(s)| - 1])
    ensures exists i :: SliceBetweenSpaces(s, Strip(s), i)
    decreases |s|
  {
    var t := Strip(s);
    if |s| > 0 && IsNumberSpace(s[0]) {
      StripSpec(s[1..]);
      var i :| SliceBetweenSpaces(s[1..], t, i);
      SpaceBefore(s, t, i);
    } else if |s| > 0 && IsNumberSpace(s[|s| - 1]) {
      StripSpec(s[..|s| - 1]);
      var i :| SliceBetweenSpaces(s[..|s| - 1], t, i);
      SpaceAfter(s, t, i);
    } else {
      assert SliceBetweenSpaces(s, t, 0);
    }
  }

  lemma SpaceBefore(s: string, t: string, i: int)
    requires |s| > 0 && IsNumberSpace(s[0]) && SliceBetweenSpaces(s[1..], t, i)
    ensures SliceBetweenSpaces(s, t, i + 1)
  {
    assert t == s[i + 1..i + 1 + |t|];
    assert s[..i + 1] == [s[0]] + s[1..][..i];
    assert s[i + 1 + |t|..] == s[1..][i + |t|..];
  }

  lemma SpaceAfter(s: string, t: string, i: int)
    requires |s| > 0 && IsNumberSpace(s[|s| - 1]) && SliceBetweenSpaces(s[..|s| - 1], t, i)
    ensures SliceBetweenSpaces(s, t, i)
  {
    var u := s[..|s| - 1];
    assert t == s[i..i + |t|];
    assert s[..i] == u[..i];
    assert s[i + |t|..] == u[i + |t|..] + [s[|s| - 1]];
  }

  /** Index of the first `c` in `s`, or |s| when there is none. */
  function FirstIndex(s: string, c: char): (p: nat)
    ensures p <= |s|
    ensures p < |s| ==> s[p] == c
    ensures forall i :: 0 <= i < p ==> s[i] != c
  {
    if |s| == 0 then 0
    else if s[0] == c then 0
    else 1 + FirstIndex(s[1..], c)
  }

  /** Python's int(s) in base 10: surrounding whitespace, an optional sign, a numeral. */
  function ParseInt(s: string): Option<int>
  {
    var t := Strip(s);
    if |t| > 0 && t[0] == '-' then
      (if IsNumeral(t[1..]) then Some(-(NumeralValue(t[1..]) as int)) else None)
    else if |t| > 0 && t[0] == '+' then
      (if IsNumeral(t[1..]) then Some(NumeralValue(t[1..]) as int) else None)
    else
      (if IsNumeral(t) then Some(NumeralValue(t) as int) else None)
  }

  /**
   * Python's float(s) for decimal literals: surrounding whitespace, an
   * optional sign, then an unsigned decimal.
   */
  function ParseDecimal(s: string): Option<real>
  {
    var t := Strip(s);
    if |t| > 0 && t[0] == '-' then
      match UnsignedDecimal(t[1..])
      case Some(v) => Some(-v)
      case None => None
    else if |t| > 0 && t[0] == '+' then UnsignedDecimal(t[1..])
    else UnsignedDecimal(t)
  }

  /** Digits with an optional '.', at least one digit on one side of it. */
  function UnsignedDecimal(body: string): (r: Option<real>)
    ensures r.Some? ==> r.value >= 0.0
  {
    var p := FirstIndex(body, '.');
    var frac := if p < |body| then body[p + 1..] else "";
    if IsDecimal(body[..p], frac) then Some(DecimalValue(body[..p], frac)) else None
  }

  /** `whole` '.' `frac` is a decimal literal: each part empty or a numeral, not both empty. */
  predicate IsDecimal(whole: string, frac: string)
  {
    (whole == "" || IsNumeral(whole)) && (frac == "" || IsNumeral(frac)) && (whole != "" || frac != "")
  }

  function DecimalValue(whole: string, frac: string): (v: real)
    requires IsDecimal(whole, frac)
    ensures v >= 0.0
  {
    NumeralValue(whole) as real + NumeralValue(frac) as real / Pow10(DigitCount(frac)) as real
  }

  function DigitChar(d: nat): (c: char)
    requires d < 10
    ensures IsDigit(c) && DigitValue(c) == d
  {
    (('0' as int) + d) as char
  }

  /** str(n) for a natural number n. */
  function ShowNat(n: nat): (s: string)
    ensures |s| > 0
    ensures forall i :: 0 <= i < |s| ==> IsDigit(s[i])
  {
    if n < 10 then [DigitChar(n)] else ShowNat(n / 10) + [DigitChar(n % 10)]
  }

  /** str(n) for an integer n. */
  function ShowInt(n: int): string
  {
    if n < 0 then "-" + ShowNat(-n) else ShowNat(n)
  }

  lemma {:induction false} ShowNatValue(n: nat)
    ensures IsNumeral(ShowNat(n))
    ensures NumeralValue(ShowNat(n)) == n
  {
    var s := ShowNat(n);
    if n >= 10 {
      ShowNatValue(n / 10);
      assert s[..|s| - 1] == ShowNat(n / 10);
    }
  }

  lemma StripUnchanged(s: string)
    requires |s| > 0 && !IsNumberSpace(s[0]) && !IsNumberSpace(s[|s| - 1])
    ensures Strip(s) == s
  {
  }

  /** int() reads back the decimal text of every integer. */
  lemma ParseIntShowInt(n: int)
    ensures ParseInt(ShowInt(n)) == Some(n)
  {
    var s := ShowInt(n);
    var digits := ShowNat(if n < 0 then -n else n);
    ShowNatValue(if n < 0 then -n else n);
    assert s[|s| - 1] == digits[|digits| - 1];
    StripUnchanged(s);
    if n < 0 {
      assert s[1..] == digits;
    }
  }

  /** float() reads the decimal text of an integer as that exact number. */
  lemma ParseDecimalShowInt(n: int)
    ensures ParseDecimal(ShowInt(n)) == Some(n as real)
  {
    var s := ShowInt(n);
    var digits := ShowNat(if n < 0 then -n else n);
    ShowNatValue(if n < 0 then -n else n);
    assert s[|s| - 1] == digits[|digits| - 1];
    StripUnchanged(s);
    if n < 0 {
      assert s[1..] == digits;
    }
    NoDotInNumeral(digits);
    UnsignedDecimalWhole(digits);
  }

  lemma {:induction false} NoDotInNumeral(s: string)
    requires DigitsAndUnderscores(s)
    ensures FirstIndex(s, '.') == |s|
  {
    if |s| > 0 {
      NoDotInNumeral(s[1..]);
    }
  }

  /** float() of a numeral without a '.' is the numeral's value. */
  lemma UnsignedDecimalWhole(digits: string)
    requires IsNumeral(digits) && FirstIndex(digits, '.') == |digits|
    ensures UnsignedDecimal(digits) == Some(NumeralValue(digits) as real)
  {
    assert digits[..|digits|] == digits;
    DecimalWithoutFraction(digits);
  }

  lemma DecimalWithoutFraction(whole: string)
    requires IsNumeral(whole)
    ensures IsDecimal(whole, "") && DecimalValue(whole, "") == NumeralValue(whole) as real
  {
    assert NumeralValue("") == 0 && DigitCount("") == 0;
  }

  /**
   * A year field padded with a file separator (U+001C) is rejected, as int()
   * rejects it, although str.isspace counts U+001C as whitespace.
   */
  lemma SeparatorPaddingRejected()
    ensures IsSpace('\U{1C}')
    ensures ParseInt("\U{1C}70") == None
    ensures ParseDecimal("\U{1C}18") == None
  {
    assert Strip("\U{1C}70") == "\U{1C}70";
    assert Strip("\U{1C}18") == "\U{1C}18";
  }

  /** Tabs, spaces and a no-break space around the year field are skipped, as int() skips them. */
  lemma WhitespacePaddingAccepted()
    ensures ParseInt("\t70\U{A0}") == Some(70)
  {
    assert Strip("\t70\U{A0}") == Strip("70\U{A0}") == "70";
    assert NumeralValue("7") == 7;
  }
}
