/** What the readers of numbers make of whitespace, signs, exponents and plain decimals. */
module NumberReading {
  import opened Wrappers
  import opened Decimals
  import opened Strings
  import opened PactFormat

  predicate AllSpaces(s: string) {
    forall i :: 0 <= i < |s| ==> IsSpace(s[i])
  }

  lemma {:induction false} StartTrimmed(a: string, s: string)
    requires AllSpaces(a) && (s == "" || !IsSpace(s[0]))
    ensures TrimStart(a + s) == s
  {
    if a == "" {
      assert a + s == s;
    } else {
      assert (a + s)[1..] == a[1..] + s;
      StartTrimmed(a[1..], s);
    }
  }

  lemma {:induction false} EndTrimmed(s: string, b: string)
    requires AllSpaces(b) && (s == "" || !IsSpace(s[|s| - 1]))
    ensures TrimEnd(s + b) == s
  {
    if b == "" {
      assert s + b == s;
    } else {
      var front := b[..|b| - 1];
      assert (s + b)[..|s + b| - 1] == s + front;
      EndTrimmed(s, front);
    }
  }

  /** Trimming takes away all the whitespace at both ends, and nothing else. */
  lemma TrimExactly(a: string, s: string, b: string)
    requires AllSpaces(a) && AllSpaces(b) && (s == "" || (!IsSpace(s[0]) && !IsSpace(s[|s| - 1])))
    ensures Trim(a + s + b) == s
  {
    if s == "" {
      assert a + s + b == (a + b) + "";
      StartTrimmed(a + b, "");
    } else {
      assert a + s + b == a + (s + b);
      StartTrimmed(a, s + b);
      EndTrimmed(s, b);
    }
  }

  /** Whitespace around an amount makes no difference to the decimal formatter or to the reader. */
  lemma SpacesIgnored(a: string, s: string, b: string, maxDecimals: nat)
    requires AllSpaces(a) && AllSpaces(b) && s != "" && !IsSpace(s[0]) && !IsSpace(s[|s| - 1])
    ensures FormatDecimalForPact(a + s + b, maxDecimals) == FormatDecimalForPact(s, maxDecimals)
    ensures ParseEU(Some(a + s + b)) == ParseEU(Some(s))
  {
    TrimExactly(a, s, b);
    Untrimmed(s);
  }

  /** Nothing, whitespace and the three placeholders read as zero. */
  lemma NothingIsZero(a: string)
    requires AllSpaces(a)
    ensures ParseEU(None) == 0.0 && ParseEU(Some(a)) == 0.0
    ensures ParseEU(Some("???")) == 0.0 && ParseEU(Some("N/A")) == 0.0 && ParseEU(Some("\U{2014}")) == 0.0
  {
    TrimExactly(a, "", "");
    assert a + "" + "" == a;
    Untrimmed("???");
    Untrimmed("N/A");
    Untrimmed("\U{2014}");
  }

  // ---------- Signs and exponents ----------

  lemma Begun(s: string)
    requires s != "" && IsDigit(s[0])
    ensures Magnitude(s).Some?
  {
    assert Run(s) != "";
    assert Magnitude(s) == AfterWhole(Run(s), s[|Run(s)|..]);
  }

  lemma NotTrimmed(s: string)
    requires s != "" && (IsDigit(s[0]) || s[0] == '+' || s[0] == '-')
    ensures TrimStart(s) == s
  {
  }

  lemma Unsigned(s: string)
    requires s != "" && TrimStart(s) == s && s[0] != '+' && s[0] != '-' && Magnitude(s).Some?
    ensures ParseFloat(s) == Magnitude(s).value
  {
  }

  lemma Signed(t: string, s: string)
    requires t != "" && TrimStart(t) == t && (t[0] == '+' || t[0] == '-') && t[1..] == s && Magnitude(s).Some?
    ensures ParseFloat(t) == if t[0] == '-' then -Magnitude(s).value else Magnitude(s).value
  {
  }

  /** A sign in front of a digit is read, a minus as the negation. */
  lemma SignRead(s: string)
    requires s != "" && IsDigit(s[0])
    ensures ParseFloat(['+'] + s) == ParseFloat(s) && ParseFloat(['-'] + s) == -ParseFloat(s)
  {
    Begun(s);
    NotTrimmed(s);
    NotTrimmed(['+'] + s);
    NotTrimmed(['-'] + s);
    Unsigned(s);
    AfterFirst('+', s);
    AfterFirst('-', s);
    Signed(['+'] + s, s);
    Signed(['-'] + s, s);
  }

  function Exponent(letter: char, sign: string, digits: string): string {
    [letter] + (sign + digits)
  }

  predicate IsExponent(s: string) {
    s != "" && (s[0] == 'e' || s[0] == 'E')
  }

  lemma UnsignedScale(x: real, s: string)
    requires IsExponent(s) && |s| > 1 && IsDigit(s[1])
    ensures Scaled(x, s) == ShiftLeft(x, Val(Run(s[1..])))
  {
    assert s[1..][0] == s[1];
  }

  lemma SignedScale(x: real, s: string)
    requires IsExponent(s) && |s| > 2 && (s[1] == '+' || s[1] == '-') && IsDigit(s[2])
    ensures var k := Val(Run(s[2..]));
      Scaled(x, s) == if s[1] == '-' then ShiftRight(x, k) else ShiftLeft(x, k)
  {
    assert s[2..][0] == s[2];
  }

  lemma WholeRun(digits: string)
    requires AllDigits(digits)
    ensures Run(digits) == digits
  {
    RunOfDigits(digits, "");
    assert digits + "" == digits;
  }

  lemma ExponentScales(x: real, letter: char, sign: string, digits: string)
    requires letter == 'e' || letter == 'E'
    requires sign == "" || sign == "+" || sign == "-"
    requires AllDigits(digits) && digits != ""
    ensures Scaled(x, Exponent(letter, sign, digits)) ==
      if sign == "-" then ShiftRight(x, Val(digits)) else ShiftLeft(x, Val(digits))
  {
    var s := Exponent(letter, sign, digits);
    WholeRun(digits);
    if sign == "" {
      assert s[1..] == digits;
      UnsignedScale(x, s);
    } else {
      assert s[1] == sign[0] && s[2..] == digits;
      SignedScale(x, s);
    }
  }

  /** A complete exponent moves the decimal point: to the right, or with a minus to the left. */
  lemma ExponentRead(whole: string, letter: char, sign: string, digits: string)
    requires whole != "" && AllDigits(whole) && (letter == 'e' || letter == 'E')
    requires sign == "" || sign == "+" || sign == "-"
    requires AllDigits(digits) && digits != ""
    ensures ParseFloat(whole + Exponent(letter, sign, digits)) ==
      if sign == "-" then ShiftRight(Val(whole) as real, Val(digits)) else ShiftLeft(Val(whole) as real, Val(digits))
  {
    ExponentScales(Val(whole) as real, letter, sign, digits);
    ParsesDigits(whole, Exponent(letter, sign, digits));
  }

  // ---------- Plain decimals ----------

  lemma DotInside(whole: string, f: string)
    requires AllDigits(whole) && AllDigits(f)
    ensures Split(whole + "." + f, '.') == [whole, f] && ',' !in whole + "." + f
    ensures Remove(whole + "." + f, '.') == whole + f
  {
    DigitsHaveNo(whole, '.');
    DigitsHaveNo(f, '.');
    SplitAt(whole, '.', f);
    SplitWhole(f, '.');
    RemoveAppend(whole + ".", f, '.');
    RemoveAppend(whole, ".", '.');
    RemoveNone(whole, '.');
    RemoveNone(f, '.');
    assert Remove(".", '.') == "" && whole + "" == whole;
    DigitsHaveNo(whole, ',');
    DigitsHaveNo(f, ',');
  }

  /** A dot followed by three digits groups thousands; followed by any other number of digits it is a decimal point. */
  lemma PlainDecimalRead(whole: string, f: string)
    requires whole != "" && AllDigits(whole) && f != "" && AllDigits(f)
    ensures AllDigits(whole + f)
    ensures ParseEU(Some(whole + "." + f)) ==
      if |f| == 3 then Val(whole + f) as real else Val(whole) as real + Frac(f)
  {
    var t := whole + "." + f;
    assert t[0] == whole[0] && t[|t| - 1] == f[|f| - 1];
    ReadAsIs(t);
    DotInside(whole, f);
    if |f| == 3 {
      ParsesInteger(whole + f);
    } else {
      ParsesFraction(whole, f, "");
      assert t + "" == t;
    }
  }
}
