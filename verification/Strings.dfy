/** Operations on strings of the kind JavaScript offers, and how they act on concatenations. */
module Strings {
  import opened Decimals

  predicate IsSpace(c: char) {
    || '\t' <= c <= '\r' || c == ' ' || c == '\U{A0}' || c == '\U{1680}' || '\U{2000}' <= c <= '\U{200A}'
    || c == '\U{2028}' || c == '\U{2029}' || c == '\U{202F}' || c == '\U{205F}' || c == '\U{3000}' || c == '\U{FEFF}'
  }

  function TrimStart(s: string): string {
    if s != "" && IsSpace(s[0]) then TrimStart(s[1..]) else s
  }

  function TrimEnd(s: string): string {
    if s != "" && IsSpace(s[|s| - 1]) then TrimEnd(s[..|s| - 1]) else s
  }

  function Trim(s: string): string {
    TrimEnd(TrimStart(s))
  }

  /** The number of occurrences. */
  function Count(s: string, c: char): (n: nat)
    ensures n == 0 <==> c !in s
  {
    if s == "" then 0 else (if s[0] == c then 1 else 0) + Count(s[1..], c)
  }

  /** `s.replace(c, d)`: the first occurrence only. */
  function ReplaceFirst(s: string, c: char, d: char): string {
    if s == "" then "" else if s[0] == c then [d] + s[1..] else [s[0]] + ReplaceFirst(s[1..], c, d)
  }

  function Remove(s: string, c: char): string {
    if s == "" then "" else (if s[0] == c then "" else [s[0]]) + Remove(s[1..], c)
  }

  /** The digits at the start. */
  function Run(s: string): (r: string)
    ensures r <= s && AllDigits(r)
    ensures |r| < |s| ==> !IsDigit(s[|r|])
  {
    if s == "" || !IsDigit(s[0]) then "" else [s[0]] + Run(s[1..])
  }

  /** Puts a character in front of the first part. */
  function Prepend(c: char, parts: seq<string>): seq<string>
    requires parts != []
  {
    [[c] + parts[0]] + parts[1..]
  }

  /** `s.split(c)`. */
  function Split(s: string, c: char): (parts: seq<string>)
    ensures |parts| == Count(s, c) + 1
  {
    if s == "" then [""]
    else if s[0] == c then [""] + Split(s[1..], c)
    else Prepend(s[0], Split(s[1..], c))
  }

  lemma {:induction false} RunOfDigits(d: string, t: string)
    requires AllDigits(d) && (t == "" || !IsDigit(t[0]))
    ensures Run(d + t) == d && (d + t)[|d|..] == t
  {
    if d == "" {
      assert d + t == t;
    } else {
      RunOfDigits(d[1..], t);
      assert (d + t)[1..] == d[1..] + t;
    }
  }

  lemma {:induction false} CountAppend(s: string, t: string, c: char)
    ensures Count(s + t, c) == Count(s, c) + Count(t, c)
  {
    if s == "" {
      assert s + t == t;
    } else {
      CountAppend(s[1..], t, c);
      assert (s + t)[1..] == s[1..] + t;
    }
  }

  lemma DigitsHaveNo(d: string, c: char)
    requires AllDigits(d) && !IsDigit(c)
    ensures c !in d && Count(d, c) == 0
  {
  }

  lemma {:induction false} SplitWhole(d: string, c: char)
    requires c !in d
    ensures Split(d, c) == [d]
  {
    if d != "" {
      SplitWhole(d[1..], c);
      assert [d[0]] + d[1..] == d;
    }
  }

  lemma {:induction false} SplitAt(d: string, c: char, t: string)
    requires c !in d
    ensures Split(d + [c] + t, c) == [d] + Split(t, c)
  {
    var s := d + [c] + t;
    if d == "" {
      assert s[1..] == t;
    } else {
      SplitAt(d[1..], c, t);
      assert s[1..] == d[1..] + [c] + t;
      PrependFirst(d, Split(t, c));
    }
  }

  lemma PrependFirst(d: string, rest: seq<string>)
    requires d != ""
    ensures Prepend(d[0], [d[1..]] + rest) == [d] + rest
  {
    assert [d[0]] + d[1..] == d;
  }

  lemma {:induction false} ReplaceAt(d: string, c: char, e: char, t: string)
    requires c !in d
    ensures ReplaceFirst(d + [c] + t, c, e) == d + [e] + t
  {
    var s := d + [c] + t;
    if d == "" {
      assert s[1..] == t;
    } else {
      ReplaceAt(d[1..], c, e, t);
      assert s[1..] == d[1..] + [c] + t;
      assert [d[0]] + (d[1..] + [e] + t) == d + [e] + t;
    }
  }

  lemma {:induction false} RemoveAppend(s: string, t: string, c: char)
    ensures Remove(s + t, c) == Remove(s, c) + Remove(t, c)
  {
    if s == "" {
      assert s + t == t;
    } else {
      RemoveAppend(s[1..], t, c);
      assert (s + t)[1..] == s[1..] + t;
      var h := if s[0] == c then "" else [s[0]];
      assert h + (Remove(s[1..], c) + Remove(t, c)) == h + Remove(s[1..], c) + Remove(t, c);
    }
  }

  lemma {:induction false} RemoveNone(s: string, c: char)
    requires c !in s
    ensures Remove(s, c) == s
  {
    if s != "" {
      RemoveNone(s[1..], c);
    }
  }

  lemma {:induction false} FirstOccurrence(s: string, c: char) returns (i: nat)
    requires c in s
    ensures i < |s| && s[i] == c && c !in s[..i]
  {
    if s[0] == c {
      i := 0;
    } else {
      i := FirstOccurrence(s[1..], c);
      i := i + 1;
      assert s[..i] == [s[0]] + s[1..][..i - 1];
    }
  }

  lemma Assoc(a: string, b: string, c: string)
    ensures a + (b + c) == a + b + c
  {
  }

  lemma Regroup(a: string, b: string, c: string, d: string)
    ensures a + b + c + d == a + (b + (c + d))
  {
  }

  lemma AfterFirst(c: char, t: string)
    ensures ([c] + t)[1..] == t
  {
  }

  lemma InThree(s: string, i: nat, j: nat)
    requires i <= j <= |s|
    ensures s == s[..i] + s[i..j] + s[j..]
  {
  }
}
