/** Decimal digit strings and the numbers they denote. */
module Decimals {

  predicate IsDigit(c: char) {
    '0' <= c <= '9'
  }

  predicate AllDigits(s: string) {
    forall i :: 0 <= i < |s| ==> IsDigit(s[i])
  }

  function DigitValue(c: char): (d: nat)
    requires IsDigit(c)
    ensures d < 10
  {
    c as int - '0' as int
  }

  function Val(s: string): nat
    requires AllDigits(s)
  {
    if s == "" then 0 else Val(s[..|s| - 1]) * 10 + DigitValue(s[|s| - 1])
  }

  /** The number denoted by `0.` followed by the digits. */
  function Frac(s: string): (r: real)
    requires AllDigits(s)
    ensures 0.0 <= r < 1.0
  {
    if s == "" then 0.0 else (DigitValue(s[0]) as real + Frac(s[1..])) / 10.0
  }

  /** The number with its decimal point moved k places to the left. */
  function ShiftRight(x: real, k: nat): real
    decreases k
  {
    if k == 0 then x else ShiftRight(x / 10.0, k - 1)
  }

  /** The number with its decimal point moved k places to the right. */
  function ShiftLeft(x: real, k: nat): real
    decreases k
  {
    if k == 0 then x else ShiftLeft(x * 10.0, k - 1)
  }

  function Pow10(k: nat): (p: nat)
    ensures p >= 1
  {
    if k == 0 then 1 else 10 * Pow10(k - 1)
  }

  lemma {:induction false} ShiftSum(x: real, y: real, k: nat)
    ensures ShiftRight(x + y, k) == ShiftRight(x, k) + ShiftRight(y, k)
    decreases k
  {
    if k > 0 {
      ShiftSum(x / 10.0, y / 10.0, k - 1);
      assert (x + y) / 10.0 == x / 10.0 + y / 10.0;
    }
  }

  lemma {:induction false} ShiftOnce(x: real, k: nat)
    ensures ShiftRight(x / 10.0, k) == ShiftRight(x, k) / 10.0 == ShiftRight(x, k + 1)
    decreases k
  {
    if k > 0 {
      ShiftOnce(x / 10.0, k - 1);
    }
  }

  lemma {:induction false} ShiftOrder(x: real, y: real, k: nat)
    requires x < y
    ensures ShiftRight(x, k) < ShiftRight(y, k)
    decreases k
  {
    if k > 0 {
      ShiftOrder(x / 10.0, y / 10.0, k - 1);
    }
  }

  lemma {:induction false} FracAppend(s: string, t: string)
    requires AllDigits(s) && AllDigits(t)
    ensures AllDigits(s + t)
    ensures Frac(s + t) == Frac(s) + ShiftRight(Frac(t), |s|)
  {
    if s == "" {
      assert s + t == t;
    } else {
      FracAppend(s[1..], t);
      assert (s + t)[1..] == s[1..] + t;
      ShiftOnce(Frac(t), |s| - 1);
    }
  }

  lemma CarryDigit(a: nat, p: nat, v: nat, d: nat)
    ensures (a * p + v) * 10 + d == a * (10 * p) + (v * 10 + d)
  {
  }

  lemma {:induction false} ValAppend(s: string, t: string)
    requires AllDigits(s) && AllDigits(t)
    ensures AllDigits(s + t)
    ensures Val(s + t) == Val(s) * Pow10(|t|) + Val(t)
  {
    if t == "" {
      assert s + t == s;
    } else {
      var front, d := t[..|t| - 1], DigitValue(t[|t| - 1]);
      ValAppend(s, front);
      assert (s + t)[..|s + t| - 1] == s + front;
      CarryDigit(Val(s), Pow10(|front|), Val(front), d);
    }
  }

  lemma {:induction false} ValBound(s: string)
    requires AllDigits(s)
    ensures Val(s) < Pow10(|s|)
  {
    if s != "" {
      ValBound(s[..|s| - 1]);
    }
  }

  /** The digits after the point denote their integer value with the point moved in front of them. */
  lemma {:induction false} FracIsVal(s: string)
    requires AllDigits(s)
    ensures Frac(s) == ShiftRight(Val(s) as real, |s|)
  {
    if s != "" {
      var front, last := s[..|s| - 1], [s[|s| - 1]];
      var v, d := Val(front) as real, DigitValue(s[|s| - 1]) as real;
      FracIsVal(front);
      FracAppend(front, last);
      assert s == front + last && last[1..] == "";
      assert Frac(last) == d / 10.0;
      ShiftSum(v, d / 10.0, |front|);
      assert (Val(s) as real) / 10.0 == v + d / 10.0;
    }
  }

  /** `String(n)`. */
  function Dec(n: nat): (s: string)
    ensures AllDigits(s) && s != "" && Val(s) == n
    ensures |s| > 1 ==> n >= Pow10(|s| - 1)
  {
    var d := (n % 10 + '0' as int) as char;
    if n < 10 then [d]
    else
      var front := Dec(n / 10);
      assert (front + [d])[..|front + [d]| - 1] == front;
      front + [d]
  }

  function Zeros(k: nat): (s: string)
    ensures |s| == k && AllDigits(s) && Val(s) == 0 && forall i :: 0 <= i < k ==> s[i] == '0'
  {
    if k == 0 then "" else Zeros(k - 1) + "0"
  }

  /** `s.padStart(k, "0")`. */
  function PadStart(s: string, k: nat): string {
    if |s| >= k then s else Zeros(k - |s|) + s
  }

  lemma DecLength(n: nat, k: nat)
    requires k > 0 && n < Pow10(k)
    ensures |Dec(n)| <= k
  {
    if |Dec(n)| > k {
      PowMonotone(k, |Dec(n)| - 1);
    }
  }

  lemma {:induction false} PowMonotone(a: nat, b: nat)
    requires a <= b
    ensures Pow10(a) <= Pow10(b)
  {
    if a < b {
      PowMonotone(a, b - 1);
    }
  }

  lemma LeadingZeros(k: nat, s: string)
    requires AllDigits(s)
    ensures AllDigits(Zeros(k) + s) && Val(Zeros(k) + s) == Val(s)
  {
    ValAppend(Zeros(k), s);
    assert 0 * Pow10(|s|) == 0;
  }

  /** A number below ten to the k, padded to k digits, denotes as a fraction the number over ten to the k. */
  lemma PaddedFraction(n: nat, k: nat)
    requires k > 0 && n < Pow10(k)
    ensures var s := PadStart(Dec(n), k);
      |s| == k && AllDigits(s) && Val(s) == n && Frac(s) == ShiftRight(n as real, k)
  {
    DecLength(n, k);
    var d := Dec(n);
    LeadingZeros(k - |d|, d);
    assert k - |d| == 0 ==> Zeros(k - |d|) + d == d;
    assert PadStart(d, k) == Zeros(k - |d|) + d;
    FracIsVal(PadStart(d, k));
  }
}
