/**
 The one-loop base64url decoder: a shift accumulator and a counter that is never reset, against the 24-bit
 quanta of sections 4 and 5 of RFC 4648.
 */
module Base64Url {
  import opened Wrappers
  import opened Utf

  /** The table of the source: `A` to `Z`, `a` to `z`, `0` to `9`, `-`, `_`, and the padding character last. */
  function CharAt(i: nat): char
    requires i < 65
  {
    if i < 26 then ('A' as int + i) as char
    else if i < 52 then ('a' as int + i - 26) as char
    else if i < 62 then ('0' as int + i - 52) as char
    else if i == 62 then '-'
    else if i == 63 then '_'
    else '='
  }

  type Sextet = x: int | 0 <= x < 64

  /** An index of the table: 64 is the padding character. */
  type Digit = x: int | 0 <= x < 65

  // ---------- The loop ----------

  /** `chars.indexOf(c)`: the padding character has index 64, a character outside the table -1. */
  function IndexOf(c: char): (i: int)
    ensures -1 <= i < 65
    ensures i != -1 ==> CharAt(i) == c
  {
    if 'A' <= c <= 'Z' then c as int - 'A' as int
    else if 'a' <= c <= 'z' then c as int - 'a' as int + 26
    else if '0' <= c <= '9' then c as int - '0' as int + 52
    else if c == '-' then 62
    else if c == '_' then 63
    else if c == '=' then 64
    else -1
  }

  lemma IndexOfCharAt(i: nat)
    requires i < 65
    ensures IndexOf(CharAt(i)) == i
  {
  }

  function WithoutPadding(s: string): (t: string)
    ensures t <= s
    ensures t != "" ==> t[|t| - 1] != '='
    ensures forall i :: |t| <= i < |s| ==> s[i] == '='
  {
    if s != "" && s[|s| - 1] == '=' then WithoutPadding(s[..|s| - 1]) else s
  }

  predicate Rejected(s: string) {
    |WithoutPadding(s)| % 4 == 1
  }

  /** The table indices of the characters that are in the table. */
  function Digits(s: string): (ds: seq<Digit>) {
    if s == "" then []
    else if IndexOf(s[0]) == -1 then Digits(s[1..])
    else [IndexOf(s[0])] + Digits(s[1..])
  }

  /** `255 & (bs >> shift)` for the shifts that occur. */
  function Octet(bs: nat, shift: nat): Byte {
    (if shift == 4 then bs / 16 else if shift == 2 then bs / 4 else bs) % 256
  }

  /** The bytes appended for the remaining digits, when `phase` digits of the current four have been read into the
      accumulator. */
  function Emit(ds: seq<nat>, phase: nat, bs: nat): seq<Byte> {
    if ds == [] then []
    else if phase == 0 then Emit(ds[1..], 1, ds[0])
    else if phase == 1 then [Octet(bs * 64 + ds[0], 4)] + Emit(ds[1..], 2, bs * 64 + ds[0])
    else if phase == 2 then [Octet(bs * 64 + ds[0], 2)] + Emit(ds[1..], 3, bs * 64 + ds[0])
    else [Octet(bs * 64 + ds[0], 0)] + Emit(ds[1..], 0, bs * 64 + ds[0])
  }

  /** `(-2 * bc) & 6`: the first operand is even, so masking it by 6 takes it modulo 8. */
  function Shift(bc: nat): (shift: nat)
    ensures shift == (if bc % 4 == 2 then 4 else if bc % 4 == 3 then 2 else if bc % 4 == 0 then 0 else 6)
  {
    (-2 * bc) % 8
  }

  lemma EmitDigit(d: nat, rest: seq<nat>, bc: nat, bs: nat, output: seq<Byte>)
    ensures bc % 4 == 0 ==> Emit([d] + rest, bc % 4, bs) == Emit(rest, (bc + 1) % 4, d)
    ensures bc % 4 != 0 ==>
      output + Emit([d] + rest, bc % 4, bs)
        == output + [Octet(bs * 64 + d, Shift(bc + 1))] + Emit(rest, (bc + 1) % 4, bs * 64 + d)
  {
    assert ([d] + rest)[1..] == rest;
  }

  /** None stands for the thrown `InvalidCharacterError`. The counter `bc` is never reset. */
  method Base64UrlDecode(str: string) returns (r: Option<seq<Byte>>)
    ensures r == Decoded(str)
  {
    var newString := WithoutPadding(str);
    if |newString| % 4 == 1 { return None; }
    var output: seq<Byte> := [];
    var bc, bs := 0, 0;
    for idx := 0 to |newString|
      invariant bc >= 0 && bs >= 0
      invariant output + Emit(Digits(newString[idx..]), bc % 4, bs) == Emit(Digits(newString), 0, 0)
    {
      assert newString[idx..][1..] == newString[idx + 1..];
      ghost var rest := Digits(newString[idx + 1..]);
      var buffer := IndexOf(newString[idx]);
      if buffer != -1 {
        EmitDigit(buffer, rest, bc, bs, output);
        var first := bc % 4 == 0;
        bs := if first then buffer else bs * 64 + buffer;
        bc := bc + 1;
        if !first {
          output := output + [Octet(bs, Shift(bc))];
        }
      }
    }
    assert newString[|newString|..] == "" && output + [] == output;
    r := Some(output);
  }

  function Decoded(s: string): Option<seq<Byte>> {
    if Rejected(s) then None else Some(Emit(Digits(WithoutPadding(s)), 0, 0))
  }

  // ---------- RFC 4648 ----------

  /** The octets of a string of sextets. Four sextets are a quantum of 24 bits: the first octet is the six bits of
      the first sextet and the two high bits of the second, the next is the four low bits of the second and the four
      high bits of the third, the last is the two low bits of the third and the six bits of the fourth. An
      incomplete last quantum gives the octets it fills, and its left-over bits are dropped. */
  function Octets(xs: seq<Sextet>): (r: seq<Byte>) {
    if |xs| >= 4 then [First(xs[0], xs[1])] + ([Second(xs[1], xs[2])] + ([Third(xs[2], xs[3])] + Octets(xs[4..])))
    else if |xs| == 3 then [First(xs[0], xs[1])] + [Second(xs[1], xs[2])]
    else if |xs| == 2 then [First(xs[0], xs[1])]
    else []
  }

  function First(a: Sextet, b: Sextet): Byte {
    (a as int) * 4 + b / 16
  }

  function Second(b: Sextet, c: Sextet): Byte {
    ((b % 16) as int) * 16 + c / 4
  }

  function Third(c: Sextet, d: Sextet): Byte {
    ((c % 4) as int) * 64 + d
  }

  /** The sextets of a string of octets, the last quantum filled up with zero bits. */
  function Sextets(bytes: seq<Byte>): (xs: seq<Sextet>)
    ensures |xs| == |bytes| / 3 * 4 + (if |bytes| % 3 == 0 then 0 else |bytes| % 3 + 1)
  {
    if |bytes| >= 3 then QuadDigits(bytes[0], bytes[1], bytes[2]) + Sextets(bytes[3..])
    else if |bytes| == 2 then QuadDigits(bytes[0], bytes[1], 0)[..3]
    else if |bytes| == 1 then QuadDigits(bytes[0], 0, 0)[..2]
    else []
  }

  function QuadDigits(x: Byte, y: Byte, z: Byte): (xs: seq<Sextet>)
    ensures |xs| == 4
  {
    [x / 4, ((x % 4) as int) * 16 + y / 16, ((y % 16) as int) * 4 + z / 64, z % 64]
  }

  function Pair(a: int, b: int): int {
    a * 64 + b
  }

  function ToText(xs: seq<Sextet>): (s: string)
    ensures |s| == |xs|
    ensures forall i :: 0 <= i < |xs| ==> s[i] == CharAt(xs[i])
  {
    if xs == [] then "" else [CharAt(xs[0])] + ToText(xs[1..])
  }

  function Encoded(bytes: seq<Byte>): string {
    ToText(Sextets(bytes))
  }

  // ---------- The loop computes the quanta ----------

  /** What the loop makes of a quantum of table indices: the quantum's octets modulo 256, in which an index of 64 counts
      with its weight, so that it carries into the digit before. */
  function CarriedOctets(ds: seq<Digit>): (r: seq<Byte>) {
    if |ds| >= 4 then
      [Carried1(ds[0], ds[1])]
      + ([Carried2(ds[1], ds[2])] + ([Carried3(ds[2], ds[3])] + CarriedOctets(ds[4..])))
    else if |ds| == 3 then [Carried1(ds[0], ds[1])] + [Carried2(ds[1], ds[2])]
    else if |ds| == 2 then [Carried1(ds[0], ds[1])]
    else []
  }

  function Carried1(a: Digit, b: Digit): Byte {
    ((a as int) * 4 + b / 16) % 256
  }

  function Carried2(b: Digit, c: Digit): Byte {
    ((b as int) * 16 + c / 4) % 256
  }

  function Carried3(c: Digit, d: Digit): Byte {
    ((c as int) * 64 + d) % 256
  }

  lemma QuantumBytes(a: Digit, b: Digit, c: Digit, d: Digit)
    ensures Octet(Pair(a, b), 4) == Carried1(a, b)
    ensures Octet(Pair(Pair(a, b), c), 2) == Carried2(b, c)
    ensures Octet(Pair(Pair(Pair(a, b), c), d), 0) == Carried3(c, d)
  {
    FirstShift(a, b);
    SecondShift(a, b, c);
    ThirdShift(Pair(a, b), c, d);
  }

  lemma FirstShift(a: int, b: int)
    ensures Pair(a, b) / 16 == a * 4 + b / 16
  {
  }

  lemma SecondShift(a: int, b: int, c: int)
    ensures Pair(Pair(a, b), c) / 4 % 256 == (b * 16 + c / 4) % 256
  {
    assert Pair(Pair(a, b), c) / 4 == Pair(a, b) * 16 + c / 4 == 256 * (a * 4) + (b * 16 + c / 4);
    Wraps(a * 4, b * 16 + c / 4);
  }

  lemma ThirdShift(ab: int, c: int, d: int)
    ensures Pair(Pair(ab, c), d) % 256 == (c * 64 + d) % 256
  {
    assert Pair(Pair(ab, c), d) == 256 * (ab * 16) + (c * 64 + d);
    Wraps(ab * 16, c * 64 + d);
  }

  lemma Wraps(k: int, n: int)
    ensures (256 * k + n) % 256 == n % 256
  {
  }

  lemma QuantumOfSextets(a: Sextet, b: Sextet, c: Sextet, d: Sextet)
    ensures Carried1(a, b) == First(a, b) && Carried2(b, c) == Second(b, c) && Carried3(c, d) == Third(c, d)
  {
    Remainder((b as int) * 16 + c / 4, b / 16, Second(b, c));
    Remainder((c as int) * 64 + d, c / 4, Third(c, d));
  }

  /** On sextets nothing carries: these are the octets of RFC 4648. */
  lemma {:induction false} CarriedIsOctets(xs: seq<Sextet>)
    ensures CarriedOctets(xs) == Octets(xs)
    decreases |xs|
  {
    if |xs| >= 2 {
      QuantumOfSextets(xs[0], xs[1], if |xs| >= 3 then xs[2] else 0, if |xs| >= 4 then xs[3] else 0);
      if |xs| >= 4 {
        CarriedIsOctets(xs[4..]);
      }
    }
  }

  lemma Remainder(n: int, k: int, r: Byte)
    requires n == 256 * k + r
    ensures n % 256 == r
  {
  }

  lemma {:induction false} DigitsOfText(xs: seq<Sextet>)
    ensures Digits(ToText(xs)) == xs
  {
    if xs != [] {
      DigitsOfText(xs[1..]);
      IndexOfCharAt(xs[0]);
      assert ToText(xs)[1..] == ToText(xs[1..]);
    }
  }

  lemma EmitPhases(ds: seq<Digit>, bs: nat)
    requires ds != []
    ensures Emit(ds, 0, bs) == Emit(ds[1..], 1, ds[0])
    ensures Emit(ds, 1, bs) == [Octet(Pair(bs, ds[0]), 4)] + Emit(ds[1..], 2, Pair(bs, ds[0]))
    ensures Emit(ds, 2, bs) == [Octet(Pair(bs, ds[0]), 2)] + Emit(ds[1..], 3, Pair(bs, ds[0]))
    ensures Emit(ds, 3, bs) == [Octet(Pair(bs, ds[0]), 0)] + Emit(ds[1..], 0, Pair(bs, ds[0]))
  {
  }

  /** The loop emits the octets of the quanta its digits make, with carries. */
  lemma {:induction false} EmitIsCarried(ds: seq<Digit>, bs: nat)
    ensures Emit(ds, 0, bs) == CarriedOctets(ds)
    decreases |ds|
  {
    if |ds| >= 2 {
      var a, b := ds[0], ds[1];
      var c := if |ds| >= 3 then ds[2] else 0;
      var d := if |ds| >= 4 then ds[3] else 0;
      QuantumBytes(a, b, c, d);
      EmitPhases(ds, bs);
      EmitPhases(ds[1..], a);
      assert ds[1..][1..] == ds[2..];
      if |ds| >= 3 {
        EmitPhases(ds[2..], Pair(a, b));
        assert ds[2..][1..] == ds[3..];
        if |ds| >= 4 {
          EmitPhases(ds[3..], Pair(Pair(a, b), c));
          assert ds[3..][1..] == ds[4..];
          EmitIsCarried(ds[4..], Pair(Pair(Pair(a, b), c), d));
        }
      }
    }
  }

  /** Without padding characters among the digits, the loop emits the octets of RFC 4648. */
  lemma EmitIsOctets(xs: seq<Sextet>, bs: nat)
    ensures Emit(xs, 0, bs) == Octets(xs)
  {
    EmitIsCarried(xs, bs);
    CarriedIsOctets(xs);
  }

  lemma DigitsHoldBytes(x: Byte, y: Byte, z: Byte)
    ensures var q := QuadDigits(x, y, z);
      First(q[0], q[1]) == x && Second(q[1], q[2]) == y && Third(q[2], q[3]) == z
  {
  }

  lemma OctetsOfQuad(q: seq<Sextet>, rest: seq<Sextet>, x: Byte, y: Byte, z: Byte)
    requires |q| == 4 && First(q[0], q[1]) == x && Second(q[1], q[2]) == y && Third(q[2], q[3]) == z
    ensures Octets(q + rest) == [x, y, z] + Octets(rest)
    ensures Octets(q[..3]) == [x, y]
    ensures Octets(q[..2]) == [x]
  {
    assert (q + rest)[4..] == rest;
  }

  lemma {:induction false} OctetsOfSextets(bytes: seq<Byte>)
    ensures Octets(Sextets(bytes)) == bytes
    decreases |bytes|
  {
    if bytes != [] {
      var x := bytes[0];
      var y := if |bytes| >= 2 then bytes[1] else 0;
      var z := if |bytes| >= 3 then bytes[2] else 0;
      var rest := if |bytes| >= 3 then bytes[3..] else [];
      assert Octets(QuadDigits(x, y, z) + Sextets(rest)) == [x, y, z] + Octets(Sextets(rest))
        && Octets(QuadDigits(x, y, z)[..3]) == [x, y] && Octets(QuadDigits(x, y, z)[..2]) == [x]
      by {
        DigitsHoldBytes(x, y, z);
        OctetsOfQuad(QuadDigits(x, y, z), Sextets(rest), x, y, z);
      }
      OctetsOfSextets(rest);
    }
  }

  lemma NoPaddingInside(xs: seq<Sextet>)
    ensures '=' !in ToText(xs)
  {
    assert CharAt(64) == '=';
    forall i | 0 <= i < |xs| ensures ToText(xs)[i] != '=' {
      assert IndexOf(ToText(xs)[i]) == xs[i];
    }
  }

  predicate AllPadding(pad: string) {
    forall i :: 0 <= i < |pad| ==> pad[i] == '='
  }

  lemma {:induction false} PaddingStripped(s: string, pad: string)
    requires '=' !in s && AllPadding(pad)
    ensures WithoutPadding(s + pad) == s
  {
    if pad == "" {
      assert s + pad == s;
    } else {
      assert (s + pad)[..|s + pad| - 1] == s + pad[..|pad| - 1];
      PaddingStripped(s, pad[..|pad| - 1]);
    }
  }

  /** The text of any string of sextets, with or without padding, decodes to their octets. */
  lemma DecodeText(xs: seq<Sextet>, pad: string)
    requires AllPadding(pad)
    ensures Decoded(ToText(xs) + pad) == if |xs| % 4 == 1 then None else Some(Octets(xs))
  {
    NoPaddingInside(xs);
    PaddingStripped(ToText(xs), pad);
    DigitsOfText(xs);
    EmitIsOctets(xs, 0);
  }

  lemma SextetCount(bytes: seq<Byte>)
    ensures |Sextets(bytes)| % 4 != 1
  {
    var n, k := |Sextets(bytes)|, |bytes| / 3;
    assert n == 4 * k || n == 4 * k + 2 || n == 4 * k + 3;
  }

  /** Decoding the encoding of any byte string, with or without padding, gives the byte string back. */
  lemma DecodeEncoded(bytes: seq<Byte>, pad: string)
    requires AllPadding(pad)
    ensures Decoded(Encoded(bytes) + pad) == Some(bytes)
  {
    SextetCount(bytes);
    DecodeText(Sextets(bytes), pad);
    OctetsOfSextets(bytes);
  }

  lemma OctetsOfOneMore(xs: seq<Sextet>)
    requires |xs| >= 4
    ensures |Octets(xs)| == 3 + |Octets(xs[4..])|
  {
  }

  lemma ThreeQuarters(n: nat)
    requires n >= 4
    ensures 3 * n / 4 == 3 + 3 * (n - 4) / 4 && n % 4 == (n - 4) % 4
  {
  }

  lemma {:induction false} OctetCount(xs: seq<Sextet>)
    ensures |xs| % 4 != 1 ==> |Octets(xs)| == 3 * |xs| / 4
    decreases |xs|
  {
    if |xs| >= 4 {
      OctetsOfOneMore(xs);
      ThreeQuarters(|xs|);
      OctetCount(xs[4..]);
    }
  }

  function FromText(s: string): (xs: seq<Sextet>)
    requires forall c <- s :: 0 <= IndexOf(c) < 64
    ensures ToText(xs) == s
  {
    if s == "" then []
    else
      [IndexOf(s[0])] + FromText(s[1..])
  }

  /** On a string over the alphabet the decoder computes the octets of its sextets: a string of length n not
      congruent to 1 modulo 4 gives the three quarters of n octets, rounded down, and any other is rejected. */
  lemma DecodesAlphabetStrings(s: string)
    requires forall c <- s :: 0 <= IndexOf(c) < 64
    ensures |s| % 4 == 1 ==> Decoded(s).None?
    ensures |s| % 4 != 1 ==> Decoded(s) == Some(Octets(FromText(s))) && |Decoded(s).value| == 3 * |s| / 4
  {
    var xs := FromText(s);
    DecodeText(xs, "");
    assert s + "" == s;
    OctetCount(xs);
  }

  /** What the decoder makes of any string: it rejects exactly by the length that is left without the padding at the
      end, and otherwise emits the octets of the table indices, with carries where padding stands inside. */
  lemma DecoderExact(s: string)
    ensures Decoded(s) ==
      if |WithoutPadding(s)| % 4 == 1 then None else Some(CarriedOctets(Digits(WithoutPadding(s))))
  {
    EmitIsCarried(Digits(WithoutPadding(s)), 0);
  }

  predicate InAlphabet(c: char) {
    0 <= IndexOf(c) < 64
  }

  /** The sextets of the characters of the alphabet. */
  function Kept(s: string): seq<Sextet> {
    if s == "" then []
    else if InAlphabet(s[0]) then [IndexOf(s[0])] + Kept(s[1..])
    else Kept(s[1..])
  }

  lemma {:induction false} DigitsAreKept(s: string)
    requires '=' !in s
    ensures Digits(s) == Kept(s)
  {
    if s != "" {
      assert s[0] != '=' && IndexOf(s[0]) != 64;
      DigitsAreKept(s[1..]);
    }
  }

  /** If no padding stands inside, the decoder gives the octets of the characters of the alphabet: others count for
      the length test and for nothing else. */
  lemma DecoderKeepsAlphabet(s: string)
    requires '=' !in WithoutPadding(s)
    ensures Decoded(s) ==
      if |WithoutPadding(s)| % 4 == 1 then None else Some(Octets(Kept(WithoutPadding(s))))
  {
    DigitsAreKept(WithoutPadding(s));
    EmitIsOctets(Kept(WithoutPadding(s)), 0);
  }

  lemma {:induction false} KeptAppend(s: string, t: string)
    ensures Kept(s + t) == Kept(s) + Kept(t)
  {
    if s == "" {
      assert s + t == t;
    } else {
      assert (s + t)[1..] == s[1..] + t;
      KeptAppend(s[1..], t);
    }
  }

  lemma {:induction false} KeptWithoutPadding(s: string)
    ensures Kept(WithoutPadding(s)) == Kept(s)
  {
    if s != "" && s[|s| - 1] == '=' {
      var front := s[..|s| - 1];
      KeptWithoutPadding(front);
      KeptAppend(front, "=");
      assert s == front + "=" && "="[1..] == "";
    }
  }

  /** A character outside the table can be put in without changing what is decoded, if that leaves no padding inside
      and both lengths are accepted. */
  lemma OthersIgnored(s: string, t: string, other: char)
    requires IndexOf(other) == -1
    requires '=' !in WithoutPadding(s + [other] + t) && '=' !in WithoutPadding(s + t)
    requires Decoded(s + [other] + t).Some? && Decoded(s + t).Some?
    ensures Decoded(s + [other] + t) == Decoded(s + t)
  {
    DecoderKeepsAlphabet(s + [other] + t);
    DecoderKeepsAlphabet(s + t);
    KeptWithoutPadding(s + [other] + t);
    KeptWithoutPadding(s + t);
    KeptAppend(s + [other], t);
    KeptAppend(s, [other]);
    KeptAppend(s, t);
    assert [other][1..] == [] && Kept([other]) == [];
    assert Kept(s + [other] + t) == Kept(s) + [] + Kept(t) == Kept(s + t);
  }

  /** A decoder that rejects every character outside the alphabet, as section 3.3 of RFC 4648 asks, but is as lenient
      about the number of padding characters at the end. */
  function Strict(s: string): Option<seq<Byte>> {
    var text := WithoutPadding(s);
    if |text| % 4 != 1 && forall c <- text :: InAlphabet(c) then Some(Octets(Kept(text))) else None
  }

  /** The decoder departs from the strict one exactly on the strings of an accepted length that hold a character
      outside the alphabet, padding inside included; it accepts all of them. */
  lemma DepartsIff(s: string)
    ensures Decoded(s).Some? <==> |WithoutPadding(s)| % 4 != 1
    ensures Decoded(s) != Strict(s) <==>
      |WithoutPadding(s)| % 4 != 1 && exists c <- WithoutPadding(s) :: !InAlphabet(c)
  {
    if forall c <- WithoutPadding(s) :: InAlphabet(c) {
      DecoderKeepsAlphabet(s);
    }
  }

  lemma DigitsOfCrlf()
    ensures Digits("QQ") == [16, 16] && Digits("QQ==\r\n") == [16, 16, 64, 64]
  {
    assert "QQ"[1..] == "Q" && "Q"[1..] == "";
    assert "QQ==\r\n"[1..] == "Q==\r\n" && "Q==\r\n"[1..] == "==\r\n" && "==\r\n"[1..] == "=\r\n";
    assert "=\r\n"[1..] == "\r\n" && "\r\n"[1..] == "\n" && "\n"[1..] == "";
    assert Digits("\r\n") == [] && Digits("=\r\n") == [64] && Digits("==\r\n") == [64, 64];
    assert Digits("Q==\r\n") == [16, 64, 64];
  }

  lemma OneQuantum(a: Digit, b: Digit, c: Digit, d: Digit)
    ensures CarriedOctets([a, b, c, d]) == [Carried1(a, b), Carried2(b, c), Carried3(c, d)]
    ensures CarriedOctets([a, b]) == [Carried1(a, b)]
  {
    assert [a, b, c, d][4..] == [] && CarriedOctets([]) == [];
  }

  lemma NothingStripped(s: string)
    requires s != "" && s[|s| - 1] != '='
    ensures WithoutPadding(s) == s
  {
  }

  lemma PaddedQ()
    ensures Decoded("QQ==") == Some([65])
  {
    DigitsOfCrlf();
    DecoderExact("QQ==");
    assert "QQ==" == "QQ" + "==";
    PaddingStripped("QQ", "==");
    OneQuantum(16, 16, 64, 64);
    assert Carried1(16, 16) == 65;
  }

  /** A line break after the padding moves the padding inside, and two more bytes are decoded. */
  lemma LineBreakAfterPadding()
    ensures Decoded("QQ==") == Some([65])
    ensures Decoded("QQ==\r\n") == Some([65, 16, 64])
  {
    PaddedQ();
    DigitsOfCrlf();
    DecoderExact("QQ==\r\n");
    NothingStripped("QQ==\r\n");
    OneQuantum(16, 16, 64, 64);
    assert Carried1(16, 16) == 65 && Carried2(16, 64) == 16 && Carried3(64, 64) == 64;
  }

  // ---------- The characters of a quantum ----------

  /** Three bytes are four characters of the alphabet, the high bits first. */
  lemma ThreeBytes(x: Byte, y: Byte, z: Byte)
    ensures Encoded([x, y, z]) ==
      [CharAt(x / 4), CharAt(x % 4 * 16 + y / 16), CharAt(y % 16 * 4 + z / 64), CharAt(z % 64)]
    ensures Decoded(Encoded([x, y, z])) == Some([x, y, z])
  {
    assert [x, y, z][3..] == [] && Sextets([]) == [];
    assert Sextets([x, y, z]) == QuadDigits(x, y, z);
    DecodeEncoded([x, y, z], "");
    assert Encoded([x, y, z]) + "" == Encoded([x, y, z]);
  }

  /** The capital letters, the small letters and the digits in order, then the two characters that are safe in a URL,
      then the padding. */
  lemma AlphabetExactly(i: nat)
    ensures CharAt(0) == 'A' && CharAt(25) == 'Z' && CharAt(26) == 'a' && CharAt(51) == 'z'
    ensures CharAt(52) == '0' && CharAt(61) == '9' && CharAt(62) == '-' && CharAt(63) == '_' && CharAt(64) == '='
    ensures i < 25 || 26 <= i < 51 || 52 <= i < 61 ==> CharAt(i + 1) as int == CharAt(i) as int + 1
  {
  }
}
