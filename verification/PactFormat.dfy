/** Numbers as text: decimals for Pact code, and numerals grouped and read back in the European manner. */
module PactFormat {
  import opened Wrappers
  import opened Decimals
  import opened Strings

  // ---------- formatDecimalForPact ----------

  /** `/^\d+\.?\d*$/` */
  predicate DecimalShape(s: string) {
    var rest := s[|Run(s)|..];
    && Run(s) != ""
    && (rest == "" || (rest[0] == '.' && Run(rest[1..]) == rest[1..]))
  }

  /** None stands for the error. */
  function FormatDecimalForPact(amount: string, maxDecimals: nat): Option<string> {
    match WithDot(Trim(amount))
    case None => None
    case Some(s) => if DecimalShape(s) then Some(Cut(s, maxDecimals)) else None
  }

  /** A lone comma without a dot is read as a dot; any other comma is refused. */
  function WithDot(trimmed: string): Option<string> {
    var commas := Count(trimmed, ',');
    if commas == 1 && '.' !in trimmed then Some(ReplaceFirst(trimmed, ',', '.'))
    else if commas > 0 then None
    else Some(trimmed)
  }

  function Cut(s: string, maxDecimals: nat): string {
    var parts := Split(s, '.');
    if |parts| == 1 then s + ".0"
    else if |parts[1]| > maxDecimals then parts[0] + "." + parts[1][..maxDecimals]
    else s
  }

  /** The text is a whole part, then possibly a dot or a comma and the digits of a fraction. */
  predicate Spells(s: string, whole: string, frac: Option<string>) {
    && whole != "" && AllDigits(whole)
    && match frac
       case None => s == whole
       case Some(f) => AllDigits(f) && (s == whole + "." + f || s == whole + "," + f)
  }

  function Printed(whole: string, frac: Option<string>, maxDecimals: nat): string {
    whole + "." + match frac
                  case None => "0"
                  case Some(f) => if |f| > maxDecimals then f[..maxDecimals] else f
  }

  lemma DottedShape(whole: string, f: string)
    requires whole != "" && AllDigits(whole) && AllDigits(f)
    ensures DecimalShape(whole) && DecimalShape(whole + "." + f)
    ensures Split(whole, '.') == [whole] && Split(whole + "." + f, '.') == [whole, f]
    ensures Count(whole, ',') == 0 && Count(whole + "." + f, ',') == 0
  {
    var s := whole + "." + f;
    assert s == whole + ("." + f) && ("." + f)[1..] == f;
    RunOfDigits(whole, "." + f);
    RunOfDigits(whole, "");
    RunOfDigits(f, "");
    assert whole + "" == whole && f + "" == f;
    DigitsHaveNo(whole, '.');
    DigitsHaveNo(f, '.');
    SplitWhole(whole, '.');
    SplitAt(whole, '.', f);
    SplitWhole(f, '.');
    DigitsHaveNo(whole, ',');
    DigitsHaveNo(f, ',');
    assert ',' !in s;
  }

  lemma ShapeSpells(s: string)
    requires DecimalShape(s)
    ensures exists whole, frac :: Spells(s, whole, frac)
  {
    var whole, rest := Run(s), s[|Run(s)|..];
    assert s == whole + rest;
    if rest == "" {
      assert Spells(s, whole, None);
    } else {
      assert rest == "." + rest[1..];
      assert s == whole + "." + rest[1..];
      assert Spells(s, whole, Some(rest[1..]));
    }
  }

  lemma CommaToDot(whole: string, f: string)
    requires ',' !in whole && ',' !in f && '.' !in whole && '.' !in f
    ensures WithDot(whole + "," + f) == Some(whole + "." + f)
  {
    var t := whole + "," + f;
    assert t == whole + ("," + f) && ("," + f)[1..] == f;
    CountAppend(whole, "," + f, ',');
    assert Count("," + f, ',') == 1 + Count(f, ',');
    ReplaceAt(whole, ',', '.', f);
    assert '.' !in t;
  }

  lemma PrintsSpelling(amount: string, maxDecimals: nat, whole: string, frac: Option<string>)
    requires Spells(Trim(amount), whole, frac)
    ensures FormatDecimalForPact(amount, maxDecimals) == Some(Printed(whole, frac, maxDecimals))
  {
    match frac
    case None =>
      DottedShape(whole, "");
      PrintsWhole(whole, maxDecimals);
    case Some(f) =>
      DottedShape(whole, f);
      DigitsHaveNo(whole, ',');
      DigitsHaveNo(f, ',');
      DigitsHaveNo(whole, '.');
      DigitsHaveNo(f, '.');
      CommaToDot(whole, f);
      PrintsDotted(whole, f, maxDecimals);
      assert WithDot(Trim(amount)) == Some(whole + "." + f);
  }

  lemma PrintsWhole(whole: string, maxDecimals: nat)
    requires Split(whole, '.') == [whole]
    ensures Cut(whole, maxDecimals) == Printed(whole, None, maxDecimals)
  {
    assert ".0" == "." + "0" && whole + ("." + "0") == whole + "." + "0";
  }

  lemma PrintsDotted(whole: string, f: string, maxDecimals: nat)
    requires Split(whole + "." + f, '.') == [whole, f]
    ensures Cut(whole + "." + f, maxDecimals) == Printed(whole, Some(f), maxDecimals)
  {
  }

  lemma AcceptedSpells(t: string)
    requires WithDot(t).Some? && DecimalShape(WithDot(t).value)
    ensures exists whole, frac :: Spells(t, whole, frac)
  {
    if ',' in t {
      var i := FirstOccurrence(t, ',');
      assert t == t[..i] + "," + t[i + 1..];
      ReplaceAt(t[..i], ',', '.', t[i + 1..]);
      CommaSpells(t, i);
    } else {
      ShapeSpells(t);
    }
  }

  lemma DotEndsWhole(s: string, i: nat)
    requires DecimalShape(s) && i < |s| && s[i] == '.' && '.' !in s[..i]
    ensures i > 0 && AllDigits(s[..i]) && AllDigits(s[i + 1..])
  {
    var whole := Run(s);
    assert |whole| <= i;
    assert forall k :: 0 <= k < i ==> s[k] in s[..i] && s[k] != '.';
    assert |whole| == i;
    assert whole == s[..i] && s[i..][1..] == s[i + 1..];
  }

  lemma CommaSpells(t: string, i: nat)
    requires i < |t| && t[i] == ',' && '.' !in t && DecimalShape(t[..i] + "." + t[i + 1..])
    ensures Spells(t, t[..i], Some(t[i + 1..]))
  {
    var whole, f := t[..i], t[i + 1..];
    Placed(whole, '.', f);
    Placed(whole, ',', f);
    DotEndsWhole(whole + ['.'] + f, i);
    assert t == whole + [','] + f;
  }

  lemma Placed(whole: string, c: char, f: string)
    ensures var s := whole + [c] + f;
      |whole| < |s| && s[|whole|] == c && s[..|whole|] == whole && s[|whole| + 1..] == f
  {
  }

  /** The formatter prints exactly what the text spells: a missing fraction becomes ".0", a comma counts as a dot, a
      long fraction is cut; and it refuses exactly the texts that spell no number. */
  lemma FormatsWhatIsSpelled(amount: string, maxDecimals: nat)
    ensures forall whole, frac :: Spells(Trim(amount), whole, frac) ==>
      FormatDecimalForPact(amount, maxDecimals) == Some(Printed(whole, frac, maxDecimals))
    ensures FormatDecimalForPact(amount, maxDecimals).Some? <==> exists whole, frac :: Spells(Trim(amount), whole, frac)
  {
    forall whole, frac | Spells(Trim(amount), whole, frac)
      ensures FormatDecimalForPact(amount, maxDecimals) == Some(Printed(whole, frac, maxDecimals))
    {
      PrintsSpelling(amount, maxDecimals, whole, frac);
    }
    if FormatDecimalForPact(amount, maxDecimals).Some? {
      AcceptedSpells(Trim(amount));
    }
  }

  function Fraction(frac: Option<string>): string {
    if frac.Some? then frac.value else ""
  }

  /** The number that is spelled, and how the printed one compares: at most the number, by less than one unit of the
      last place allowed, and equal if nothing was cut. The result is digits, a dot and at most `maxDecimals`
      digits, and formatting it again changes nothing. */
  lemma PrintedIsCloseAndStable(whole: string, frac: Option<string>, maxDecimals: nat)
    requires whole != "" && AllDigits(whole) && AllDigits(Fraction(frac)) && maxDecimals >= 1
    ensures var out := Printed(whole, frac, maxDecimals);
      && whole + "." <= out && |out| <= |whole| + 1 + maxDecimals && AllDigits(out[|whole| + 1..])
      && var f := out[|whole| + 1..];
        && Frac(f) <= Frac(Fraction(frac)) < Frac(f) + ShiftRight(1.0, maxDecimals)
        && (|Fraction(frac)| <= maxDecimals ==> Frac(f) == Frac(Fraction(frac)))
        && FormatDecimalForPact(out, maxDecimals) == Some(out)
  {
    var out := Printed(whole, frac, maxDecimals);
    var f := out[|whole| + 1..];
    assert out == whole + "." + f;
    PrintedStable(whole, f, maxDecimals);
    var given := Fraction(frac);
    if |given| > maxDecimals {
      CutFraction(given, maxDecimals);
    } else {
      ShiftZero(maxDecimals);
      ShiftOrder(0.0, 1.0, maxDecimals);
      assert "0"[1..] == "";
    }
  }

  lemma PrintedStable(whole: string, f: string, maxDecimals: nat)
    requires whole != "" && AllDigits(whole) && AllDigits(f) && |f| <= maxDecimals
    ensures FormatDecimalForPact(whole + "." + f, maxDecimals) == Some(whole + "." + f)
  {
    var out := whole + "." + f;
    assert out[0] == whole[0] && out[|out| - 1] == (if f == "" then '.' else f[|f| - 1]);
    Untrimmed(out);
    assert Spells(out, whole, Some(f));
    PrintsSpelling(out, maxDecimals, whole, Some(f));
  }

  lemma CutFraction(given: string, k: nat)
    requires AllDigits(given) && k <= |given|
    ensures Frac(given[..k]) <= Frac(given) < Frac(given[..k]) + ShiftRight(1.0, k)
  {
    var kept, lost := given[..k], given[k..];
    assert given == kept + lost;
    FracAppend(kept, lost);
    ShiftZero(k);
    ShiftOrder(Frac(lost), 1.0, k);
    if Frac(lost) > 0.0 {
      ShiftOrder(0.0, Frac(lost), k);
    }
  }

  lemma {:induction false} ShiftZero(k: nat)
    ensures ShiftRight(0.0, k) == 0.0
    decreases k
  {
    if k > 0 {
      ShiftZero(k - 1);
    }
  }

  lemma Untrimmed(s: string)
    requires s != "" && !IsSpace(s[0]) && !IsSpace(s[|s| - 1])
    ensures Trim(s) == s
  {
  }

  // ---------- Grouping ----------

  /** What follows the first digit, with a dot wherever a multiple of three digits remains. */
  function DotsBefore(t: string): string {
    if t == "" then "" else (if |t| % 3 == 0 then "." else "") + [t[0]] + DotsBefore(t[1..])
  }

  /** `replace(/\B(?=(\d{3})+(?!\d))/g, ".")` on a string of digits. */
  function Grouped(s: string): string {
    if s == "" then "" else [s[0]] + DotsBefore(s[1..])
  }

  function Concat(gs: seq<string>): string {
    if gs == [] then "" else gs[0] + Concat(gs[1..])
  }

  function Join(gs: seq<string>): string {
    if gs == [] then "" else if |gs| == 1 then gs[0] else gs[0] + "." + Join(gs[1..])
  }

  predicate Threes(gs: seq<string>) {
    forall i :: 0 <= i < |gs| ==> |gs[i]| == 3
  }

  /** A first group of one to three digits, and groups of exactly three. */
  predicate Thousands(gs: seq<string>) {
    gs != [] && 1 <= |gs[0]| <= 3 && Threes(gs[1..])
  }

  function Chunks(s: string): (gs: seq<string>)
    requires |s| % 3 == 0
    ensures Threes(gs) && Concat(gs) == s && |gs| == |s| / 3
    ensures s != "" ==> gs[0] == s[..3]
  {
    if s == "" then []
    else
      assert s[..3] + s[3..] == s;
      [s[..3]] + Chunks(s[3..])
  }

  lemma DotFirst(c: char, t: string)
    requires |[c] + t| % 3 == 0
    ensures DotsBefore([c] + t) == "." + [c] + DotsBefore(t)
  {
    AfterFirst(c, t);
  }

  lemma NoDotFirst(c: char, t: string)
    requires |[c] + t| % 3 != 0
    ensures DotsBefore([c] + t) == "" + [c] + DotsBefore(t)
  {
    AfterFirst(c, t);
  }

  lemma NextThree(n: nat)
    requires n % 3 == 0
    ensures (n + 1) % 3 != 0 && (n + 2) % 3 != 0 && (n + 3) % 3 == 0
  {
  }

  /** Three digits and what follows them. */
  lemma DotsBeforeGroup(g: string, rest: string)
    requires |g| == 3 && |rest| % 3 == 0
    ensures DotsBefore(g + rest) == "." + g + DotsBefore(rest)
  {
    NextThree(|rest|);
    var t2 := [g[2]] + rest;
    var t1 := [g[1]] + t2;
    NoDotFirst(g[2], rest);
    NoDotFirst(g[1], t2);
    DotFirst(g[0], t1);
    InChars(g, rest);
    ThreeChars(g, DotsBefore(rest));
  }

  lemma InChars(g: string, t: string)
    requires |g| == 3
    ensures g + t == [g[0]] + ([g[1]] + ([g[2]] + t))
  {
  }

  lemma ThreeChars(g: string, t: string)
    requires |g| == 3
    ensures "." + [g[0]] + ("" + [g[1]] + ("" + [g[2]] + t)) == "." + g + t
  {
  }

  lemma {:induction false} DotsBeforeThrees(gs: seq<string>)
    requires Threes(gs)
    ensures |Concat(gs)| % 3 == 0
    ensures gs != [] ==> DotsBefore(Concat(gs)) == "." + Join(gs)
  {
    if gs != [] {
      DotsBeforeThrees(gs[1..]);
      DotsBeforeGroup(gs[0], Concat(gs[1..]));
      if gs[1..] == [] {
        assert DotsBefore(Concat(gs[1..])) == "" && "." + gs[0] + "" == "." + gs[0];
      } else {
        assert "." + gs[0] + ("." + Join(gs[1..])) == "." + (gs[0] + "." + Join(gs[1..]));
      }
    }
  }

  lemma {:induction false} DotsBeforeShort(h: string, t: string)
    requires |h| <= 2 && |t| % 3 == 0
    ensures DotsBefore(h + t) == h + DotsBefore(t)
  {
    if h == "" {
      assert h + t == t;
    } else {
      assert (h + t)[1..] == h[1..] + t;
      DotsBeforeShort(h[1..], t);
      assert [h[0]] + (h[1..] + DotsBefore(t)) == h + DotsBefore(t);
    }
  }

  /** Grouping joins with dots the one split of the digits into a first group of one to three and groups of three. */
  lemma GroupedIsThousands(s: string, gs: seq<string>)
    requires Thousands(gs) && Concat(gs) == s
    ensures Grouped(s) == Join(gs)
  {
    var first, rest := gs[0], Concat(gs[1..]);
    DotsBeforeThrees(gs[1..]);
    FirstGroup(first, rest);
    if gs[1..] == [] {
      assert DotsBefore(rest) == "" && first + "" == first;
    } else {
      assert first + ("." + Join(gs[1..])) == first + "." + Join(gs[1..]);
    }
  }

  lemma FirstGroup(first: string, rest: string)
    requires 1 <= |first| <= 3 && |rest| % 3 == 0
    ensures Grouped(first + rest) == first + DotsBefore(rest)
  {
    var t := first[1..];
    assert first == [first[0]] + t;
    Assoc([first[0]], t, rest);
    AfterFirst(first[0], t + rest);
    DotsBeforeShort(t, rest);
    Assoc([first[0]], t, DotsBefore(rest));
  }

  function FirstSize(s: string): nat {
    if |s| % 3 == 0 then 3 else |s| % 3
  }

  function ThousandsOf(s: string): (gs: seq<string>)
    requires s != ""
    ensures Thousands(gs) && Concat(gs) == s && |gs| == (|s| + 2) / 3
    ensures gs[0] == s[..FirstSize(s)]
    ensures |gs| > 1 ==> gs[1] == s[FirstSize(s)..FirstSize(s) + 3]
  {
    var k := FirstSize(s);
    assert s[..k] + s[k..] == s;
    var gs := [s[..k]] + Chunks(s[k..]);
    assert gs[1..] == Chunks(s[k..]);
    gs
  }

  lemma {:induction false} RemoveDotsBefore(t: string)
    requires '.' !in t
    ensures Remove(DotsBefore(t), '.') == t
  {
    if t != "" {
      RemoveDotsBefore(t[1..]);
      var rest := [t[0]] + DotsBefore(t[1..]);
      assert rest[1..] == DotsBefore(t[1..]);
      assert ("." + rest)[1..] == rest;
      assert "" + rest == rest;
      assert DotsBefore(t) == (if |t| % 3 == 0 then "." + rest else rest);
      assert [t[0]] + t[1..] == t;
    }
  }

  /** Deleting the dots gives back the digits. */
  lemma RemoveGrouped(s: string)
    requires '.' !in s
    ensures Remove(Grouped(s), '.') == s
  {
    if s != "" {
      RemoveDotsBefore(s[1..]);
      assert Grouped(s)[1..] == DotsBefore(s[1..]);
    }
  }

  // ---------- formatEU and parseEU on numerals ----------

  /** A numeral without annotation or currency suffix: digits, and possibly a dot and further digits. */
  function FormatEU(whole: string, frac: Option<string>): string {
    match frac
    case None => Grouped(whole)
    case Some(f) => Grouped(whole) + "," + f
  }

  /** The unsigned numeral a text begins with. */
  function Magnitude(s: string): Option<real> {
    AfterWhole(Run(s), s[|Run(s)|..])
  }

  function AfterWhole(whole: string, rest: string): Option<real>
    requires AllDigits(whole)
  {
    if rest != "" && rest[0] == '.' then AfterDot(whole, rest[1..])
    else if whole == "" then None
    else Some(Scaled(Val(whole) as real, rest))
  }

  function AfterDot(whole: string, rest: string): Option<real>
    requires AllDigits(whole)
  {
    var frac := Run(rest);
    if whole == "" && frac == "" then None
    else Some(Scaled(Val(whole) as real + Frac(frac), rest[|frac|..]))
  }

  /** Applies an exponent, if the text begins with a complete one. */
  function Scaled(x: real, s: string): real {
    if s == "" || (s[0] != 'e' && s[0] != 'E') then x
    else
      var signed := |s| > 1 && (s[1] == '+' || s[1] == '-');
      var digits := Run(if signed then s[2..] else s[1..]);
      if digits == "" then x
      else if signed && s[1] == '-' then ShiftRight(x, Val(digits))
      else ShiftLeft(x, Val(digits))
  }

  /** `parseFloat(s) || 0`: the longest numeral the text begins with, and zero if there is none. */
  function ParseFloat(s: string): real {
    var t := TrimStart(s);
    var sign := if t != "" && t[0] == '-' then -1.0 else 1.0;
    var m := Magnitude(if t != "" && (t[0] == '-' || t[0] == '+') then t[1..] else t);
    if m.Some? then sign * m.value else 0.0
  }

  const SENTINELS := {"???", "N/A", "\U{2014}", ""}

  /** None stands for null and undefined. */
  function ParseEU(s: Option<string>): real {
    if s.None? || s.value == "" then 0.0
    else
      var t := Trim(s.value);
      if t in SENTINELS then 0.0
      else if ',' in t then ParseFloat(ReplaceFirst(Remove(t, '.'), ',', '.'))
      else
        var parts := Split(t, '.');
        if |parts| == 2 && |parts[1]| == 3 && AllDigits(parts[1]) then ParseFloat(Remove(t, '.'))
        else ParseFloat(t)
  }

  lemma ParsesDigits(whole: string, rest: string)
    requires whole != "" && AllDigits(whole) && (rest == "" || !IsDigit(rest[0]))
    requires AfterWhole(whole, rest).Some?
    ensures ParseFloat(whole + rest) == AfterWhole(whole, rest).value
  {
    RunOfDigits(whole, rest);
    var s := whole + rest;
    assert s[0] == whole[0];
    assert TrimStart(s) == s;
  }

  predicate NoExponent(tail: string) {
    tail == "" || (tail[0] != 'e' && tail[0] != 'E' && !IsDigit(tail[0]))
  }

  lemma NoScale(x: real, tail: string)
    requires NoExponent(tail)
    ensures Scaled(x, tail) == x
  {
  }

  lemma FractionAfterDot(whole: string, t: string, f: string)
    requires AllDigits(whole) && whole != "" && Run(t) == f && NoExponent(t[|f|..])
    ensures AfterDot(whole, t) == Some(Val(whole) as real + Frac(f))
  {
    NoScale(Val(whole) as real + Frac(f), t[|f|..]);
  }

  lemma FractionAfter(whole: string, f: string, tail: string)
    requires AllDigits(whole) && whole != "" && AllDigits(f) && NoExponent(tail)
    ensures AfterWhole(whole, "." + (f + tail)) == Some(Val(whole) as real + Frac(f))
  {
    RunOfDigits(f, tail);
    FractionAfterDot(whole, f + tail, f);
    AfterFirst('.', f + tail);
  }

  lemma ParsesFraction(whole: string, f: string, tail: string)
    requires whole != "" && AllDigits(whole) && AllDigits(f) && NoExponent(tail)
    ensures ParseFloat(whole + "." + f + tail) == Val(whole) as real + Frac(f)
  {
    FractionAfter(whole, f, tail);
    ParsesDigits(whole, "." + (f + tail));
    Regroup(whole, ".", f, tail);
  }

  lemma ParsesInteger(whole: string)
    requires whole != "" && AllDigits(whole)
    ensures ParseFloat(whole) == Val(whole) as real
  {
    ParsesDigits(whole, "");
    assert whole + "" == whole;
  }

  lemma GroupedChars(s: string)
    requires s != "" && AllDigits(s)
    ensures var g := Grouped(s);
      && g != "" && IsDigit(g[0]) && IsDigit(g[|g| - 1]) && ',' !in g
  {
    DotsBeforeChars(s[1..]);
  }

  lemma {:induction false} DotsBeforeChars(t: string)
    requires AllDigits(t)
    ensures var g := DotsBefore(t);
      && (g == "" || IsDigit(g[|g| - 1])) && ',' !in g
  {
    if t != "" {
      DotsBeforeChars(t[1..]);
    }
  }

  lemma RemoveDotsWithComma(whole: string, f: string)
    requires AllDigits(whole) && AllDigits(f)
    ensures Remove(Grouped(whole) + "," + f, '.') == whole + "," + f
  {
    var g := Grouped(whole);
    DigitsHaveNo(whole, '.');
    DigitsHaveNo(f, '.');
    RemoveGrouped(whole);
    assert g + "," + f == g + ("," + f);
    RemoveAppend(g, "," + f, '.');
    RemoveNone("," + f, '.');
  }

  /** Text whose ends are digits is neither trimmed nor a sentinel. */
  lemma ReadAsIs(t: string)
    requires t != "" && IsDigit(t[0]) && IsDigit(t[|t| - 1])
    ensures Trim(t) == t && t !in SENTINELS
  {
    Untrimmed(t);
  }

  lemma ReadsComma(t: string)
    requires t != "" && Trim(t) == t && t !in SENTINELS && ',' in t
    ensures ParseEU(Some(t)) == ParseFloat(ReplaceFirst(Remove(t, '.'), ',', '.'))
  {
  }

  /** A numeral with a fraction is read back exactly. */
  lemma FractionRoundTrip(whole: string, f: string)
    requires whole != "" && AllDigits(whole) && f != "" && AllDigits(f)
    ensures ParseEU(Some(FormatEU(whole, Some(f)))) == Val(whole) as real + Frac(f)
  {
    var g := Grouped(whole);
    var t := g + "," + f;
    GroupedChars(whole);
    assert t[0] == g[0] && t[|t| - 1] == f[|f| - 1];
    assert t[|g|] == ',';
    ReadAsIs(t);
    ReadsComma(t);
    RemoveDotsWithComma(whole, f);
    DotForComma(whole, f);
    ParsesFraction(whole, f, "");
    assert whole + "." + f + "" == whole + "." + f;
  }

  lemma DotForComma(whole: string, f: string)
    requires AllDigits(whole)
    ensures ReplaceFirst(whole + "," + f, ',', '.') == whole + "." + f
  {
    DigitsHaveNo(whole, ',');
    ReplaceAt(whole, ',', '.', f);
  }

  lemma {:induction false} SplitJoin(gs: seq<string>)
    requires gs != [] && forall i :: 0 <= i < |gs| ==> '.' !in gs[i]
    ensures Split(Join(gs), '.') == gs
  {
    if |gs| == 1 {
      SplitWhole(gs[0], '.');
      assert gs == [gs[0]];
    } else {
      SplitAt(gs[0], '.', Join(gs[1..]));
      SplitJoin(gs[1..]);
      assert gs[0] + ['.'] + Join(gs[1..]) == Join(gs);
    }
  }

  /** The reader takes a grouped integer apart at its dots: exactly two groups are joined again, and otherwise what
      `parseFloat` sees counts. */
  lemma ReadsGroups(whole: string, gs: seq<string>)
    requires AllDigits(whole) && Thousands(gs) && Concat(gs) == whole
    ensures Grouped(whole) == Join(gs)
    ensures ParseEU(Some(Grouped(whole))) == if |gs| == 2 then Val(whole) as real else ParseFloat(Join(gs))
  {
    var g := Grouped(whole);
    GroupedIsThousands(whole, gs);
    assert whole[0] == gs[0][0];
    GroupedChars(whole);
    ReadAsIs(g);
    ConcatDigits(gs);
    SplitJoin(gs);
    if |gs| == 2 {
      assert gs[1] == gs[1..][0];
      DigitsHaveNo(whole, '.');
      RemoveGrouped(whole);
      ParsesInteger(whole);
    }
  }

  lemma JoinFirstTwo(gs: seq<string>)
    requires |gs| >= 3
    ensures Join(gs) == gs[0] + "." + gs[1] + ("." + Join(gs[2..]))
  {
    assert gs[1..][1..] == gs[2..];
    Regroup(gs[0], ".", gs[1], "." + Join(gs[2..]));
    Regroup("", gs[1], ".", Join(gs[2..]));
  }

  lemma ReadsFirstTwo(gs: seq<string>)
    requires Thousands(gs) && |gs| >= 3 && AllDigits(gs[0]) && AllDigits(gs[1])
    ensures ParseFloat(Join(gs)) == Val(gs[0]) as real + Frac(gs[1])
  {
    JoinFirstTwo(gs);
    var tail := "." + Join(gs[2..]);
    assert NoExponent(tail);
    ParsesFraction(gs[0], gs[1], tail);
  }

  /** The first group as an integer, and the second as a fraction. */
  function FirstTwo(whole: string): real
    requires AllDigits(whole) && |whole| > 6
  {
    var k := FirstSize(whole);
    Val(whole[..k]) as real + Frac(whole[k..k + 3])
  }

  /** What the reader makes of a grouped integer: up to six digits are read as they were; from seven digits on there
      are two dots, and only the first group and, as a fraction, the second are read. */
  lemma IntegerReadBack(whole: string)
    requires whole != "" && AllDigits(whole)
    ensures |whole| <= 6 ==> ParseEU(Some(FormatEU(whole, None))) == Val(whole) as real
    ensures |whole| > 6 ==> ParseEU(Some(FormatEU(whole, None))) == FirstTwo(whole)
  {
    var gs := ThousandsOf(whole);
    ReadsGroups(whole, gs);
    if |gs| == 1 {
      OneGroup(gs, whole);
      ParsesInteger(whole);
    } else if |gs| >= 3 {
      ConcatDigits(gs);
      ReadsFirstTwo(gs);
    }
  }

  lemma OneGroup(gs: seq<string>, whole: string)
    requires |gs| == 1 && Concat(gs) == whole
    ensures Join(gs) == whole
  {
    assert gs[1..] == [] && Concat(gs[1..]) == "";
  }

  lemma {:induction false} ConcatDigits(gs: seq<string>)
    requires AllDigits(Concat(gs))
    ensures forall i :: 0 <= i < |gs| ==> AllDigits(gs[i]) && '.' !in gs[i]
  {
    if gs != [] {
      var s := Concat(gs);
      assert forall i :: 0 <= i < |gs[0]| ==> gs[0][i] == s[i];
      assert s[|gs[0]|..] == Concat(gs[1..]);
      ConcatDigits(gs[1..]);
    }
  }

  lemma ValOfThree(a: string, b: string, c: string)
    requires AllDigits(a) && AllDigits(b) && AllDigits(c) && |b| == 3 && |c| >= 3
    ensures AllDigits(a + b + c)
    ensures (Val(a) as real + Frac(b) == Val(a + b + c) as real) <==> Val(a + b + c) == 0
  {
    ValAppend(a, b);
    ValAppend(a + b, c);
    ThousandUp();
    PowMonotone(3, |c|);
    ThreePlaces(b);
    LostDigits(Val(a), Val(b), Val(c), Pow10(|c|));
  }

  lemma ThousandUp()
    ensures Pow10(3) == 1000
  {
  }

  /** An integer is read back exactly when it has at most six digits, or is zero. */
  lemma IntegerRoundTripIff(whole: string)
    requires whole != "" && AllDigits(whole)
    ensures ParseEU(Some(FormatEU(whole, None))) == Val(whole) as real <==> |whole| <= 6 || Val(whole) == 0
  {
    IntegerReadBack(whole);
    if |whole| > 6 {
      FirstTwoLoses(whole);
    }
  }

  lemma FirstTwoLoses(whole: string)
    requires AllDigits(whole) && |whole| > 6
    ensures FirstTwo(whole) == Val(whole) as real <==> Val(whole) == 0
  {
    var k := FirstSize(whole);
    InThree(whole, k, k + 3);
    ValOfThree(whole[..k], whole[k..k + 3], whole[k + 3..]);
  }

  lemma ThreePlaces(b: string)
    requires AllDigits(b) && |b| == 3
    ensures Frac(b) * 1000.0 == Val(b) as real
  {
    FracIsVal(b);
    var v := Val(b) as real;
    assert ShiftRight(v, 3) == v / 10.0 / 10.0 / 10.0;
  }

  lemma LostDigits(a: nat, b: nat, c: nat, p: nat)
    requires p >= 1000
    ensures var v := (a * 1000 + b) * p + c;
      (a * 1000 + b) as real == v as real * 1000.0 <==> v == 0
  {
    var head := a * 1000 + b;
    var v := head * p + c;
    if head > 0 {
      assert head * p >= head * 1000;
      assert v * 1000 > head;
    }
  }
}
