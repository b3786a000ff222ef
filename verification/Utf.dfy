/**
 Texts as JavaScript holds them, sequences of UTF-16 code units, and their UTF-8 encoding (section 3 of RFC 3629)
 as the platform's text encoder and decoder perform it: a lone surrogate is encoded as the replacement character,
 malformed bytes are decoded as one, and one leading byte order mark is dropped.
 */
module Utf {
  type CodeUnit = u: int | 0 <= u < 0x1_0000

  type Text16 = seq<CodeUnit>

  type Scalar = s: int | 0 <= s < 0xD800 || 0xE000 <= s < 0x11_0000

  type Byte = b: int | 0 <= b < 256

  const REPLACEMENT: Scalar := 0xFFFD
  const BOM: CodeUnit := 0xFEFF

  predicate IsLead(u: CodeUnit) {
    0xD800 <= u < 0xDC00
  }

  predicate IsTrail(u: CodeUnit) {
    0xDC00 <= u < 0xE000
  }

  predicate StartsWithPair(t: Text16) {
    |t| >= 2 && IsLead(t[0]) && IsTrail(t[1])
  }

  // ---------- Code units and scalar values ----------

  function Scalars(t: Text16): seq<Scalar> {
    if t == [] then []
    else if StartsWithPair(t) then [0x1_0000 + (t[0] - 0xD800) * 0x400 + (t[1] - 0xDC00)] + Scalars(t[2..])
    else if IsLead(t[0]) || IsTrail(t[0]) then [REPLACEMENT] + Scalars(t[1..])
    else [t[0]] + Scalars(t[1..])
  }

  function UnitsOf(s: Scalar): (t: Text16)
    ensures 1 <= |t| <= 2
  {
    if s < 0x1_0000 then [s] else [0xD800 + (s - 0x1_0000) / 0x400, 0xDC00 + (s - 0x1_0000) % 0x400]
  }

  function Units(ss: seq<Scalar>): Text16 {
    if ss == [] then [] else UnitsOf(ss[0]) + Units(ss[1..])
  }

  /** Every surrogate is part of a pair. */
  predicate Paired(t: Text16) {
    t == []
    || (StartsWithPair(t) && Paired(t[2..]))
    || (!IsLead(t[0]) && !IsTrail(t[0]) && Paired(t[1..]))
  }

  lemma PairRoundTrip(lead: CodeUnit, trail: CodeUnit)
    requires IsLead(lead) && IsTrail(trail)
    ensures UnitsOf(0x1_0000 + (lead - 0xD800) * 0x400 + (trail - 0xDC00)) == [lead, trail]
  {
  }

  /** Going to scalar values and back replaces exactly the lone surrogates. */
  lemma {:induction false} UnitsOfScalars(t: Text16)
    ensures |Units(Scalars(t))| == |t|
    ensures Units(Scalars(t)) == t <==> Paired(t)
    decreases |t|
  {
    if t != [] {
      var k := if StartsWithPair(t) then 2 else 1;
      UnitsOfScalars(t[k..]);
      var head, rest := UnitsOf(Scalars(t)[0]), Units(Scalars(t[k..]));
      assert Scalars(t)[1..] == Scalars(t[k..]);
      if k == 2 {
        PairRoundTrip(t[0], t[1]);
      }
      assert t == t[..k] + t[k..];
      SameParts(head, rest, t[..k], t[k..]);
    }
  }

  lemma SameParts(a: Text16, b: Text16, c: Text16, d: Text16)
    requires |a| == |c|
    ensures a + b == c + d <==> a == c && b == d
  {
    assert (a + b)[..|a|] == a && (a + b)[|a|..] == b;
    assert (c + d)[..|c|] == c && (c + d)[|c|..] == d;
  }

  lemma PairOrSelf(s: Scalar, t: Text16)
    ensures Scalars(UnitsOf(s) + t) == [s] + Scalars(t)
  {
    var u := UnitsOf(s) + t;
    assert u[|UnitsOf(s)|..] == t;
  }

  lemma {:induction false} ScalarsOfUnits(ss: seq<Scalar>)
    ensures Scalars(Units(ss)) == ss
  {
    if ss != [] {
      ScalarsOfUnits(ss[1..]);
      PairOrSelf(ss[0], Units(ss[1..]));
    }
  }

  // ---------- UTF-8 ----------

  function EncodeScalar(s: Scalar): (bytes: seq<Byte>)
    ensures 1 <= |bytes| <= 4
  {
    if s < 0x80 then [s]
    else if s < 0x800 then [0xC0 + s / 64, 0x80 + s % 64]
    else if s < 0x1_0000 then [0xE0 + s / 4096, 0x80 + s / 64 % 64, 0x80 + s % 64]
    else [0xF0 + s / 262144, 0x80 + s / 4096 % 64, 0x80 + s / 64 % 64, 0x80 + s % 64]
  }

  function EncodeScalars(ss: seq<Scalar>): seq<Byte> {
    if ss == [] then [] else EncodeScalar(ss[0]) + EncodeScalars(ss[1..])
  }

  predicate InRange(bytes: seq<Byte>, i: nat, low: int, high: int) {
    i < |bytes| && low <= bytes[i] <= high
  }

  predicate Continues(bytes: seq<Byte>, i: nat) {
    InRange(bytes, i, 0x80, 0xBF)
  }

  /** The bytes allowed after a first byte of three, and of four: the rest would be overlong, a surrogate, or out of
      range. */
  predicate SecondOfThree(bytes: seq<Byte>)
    requires bytes != []
  {
    InRange(bytes, 1, if bytes[0] == 0xE0 then 0xA0 else 0x80, if bytes[0] == 0xED then 0x9F else 0xBF)
  }

  predicate SecondOfFour(bytes: seq<Byte>)
    requires bytes != []
  {
    InRange(bytes, 1, if bytes[0] == 0xF0 then 0x90 else 0x80, if bytes[0] == 0xF4 then 0x8F else 0xBF)
  }

  /** What the first bytes decode to, and how many they are. A sequence that breaks off is replaced as a whole, and
      decoding goes on at the byte that broke it. */
  function DecodeFirst(bytes: seq<Byte>): (r: (Scalar, nat))
    requires bytes != []
    ensures 1 <= r.1 <= |bytes|
  {
    var b := bytes[0];
    if b < 0x80 then (b, 1)
    else if 0xC2 <= b <= 0xDF then
      if Continues(bytes, 1) then ((b as int - 0xC0) * 64 + (bytes[1] - 0x80), 2) else (REPLACEMENT, 1)
    else if 0xE0 <= b <= 0xEF then
      if !SecondOfThree(bytes) then (REPLACEMENT, 1)
      else if !Continues(bytes, 2) then (REPLACEMENT, 2)
      else ((b as int - 0xE0) * 4096 + (bytes[1] as int - 0x80) * 64 + (bytes[2] - 0x80), 3)
    else if 0xF0 <= b <= 0xF4 then
      if !SecondOfFour(bytes) then (REPLACEMENT, 1)
      else if !Continues(bytes, 2) then (REPLACEMENT, 2)
      else if !Continues(bytes, 3) then (REPLACEMENT, 3)
      else
        var high := (b as int - 0xF0) * 262144 + (bytes[1] as int - 0x80) * 4096;
        (high + (bytes[2] as int - 0x80) * 64 + (bytes[3] - 0x80), 4)
    else (REPLACEMENT, 1)
  }

  function DecodeScalars(bytes: seq<Byte>): seq<Scalar>
    decreases |bytes|
  {
    if bytes == [] then []
    else
      var (s, n) := DecodeFirst(bytes);
      [s] + DecodeScalars(bytes[n..])
  }

  lemma ThreeDigits(s: nat)
    requires s < 0x1_0000
    ensures s == (s / 4096) * 4096 + (s / 64 % 64) * 64 + s % 64 && s / 4096 < 16
  {
    assert s / 64 == (s / 4096) * 64 + s / 64 % 64;
  }

  lemma FourDigits(s: nat)
    requires s < 0x11_0000
    ensures s == (s / 262144) * 262144 + (s / 4096 % 64) * 4096 + (s / 64 % 64) * 64 + s % 64 && s / 262144 <= 4
  {
    assert s / 64 == (s / 4096) * 64 + s / 64 % 64;
    assert s / 4096 == (s / 262144) * 64 + s / 4096 % 64;
  }

  lemma DecodeFirstOfEncoded(s: Scalar, rest: seq<Byte>)
    ensures DecodeFirst(EncodeScalar(s) + rest) == (s, |EncodeScalar(s)|)
  {
    if 0x800 <= s < 0x1_0000 {
      ThreeDigits(s);
    } else if s >= 0x1_0000 {
      FourDigits(s);
    }
  }

  lemma {:induction false} DecodeOfEncoded(ss: seq<Scalar>)
    ensures DecodeScalars(EncodeScalars(ss)) == ss
  {
    if ss != [] {
      var rest := EncodeScalars(ss[1..]);
      DecodeFirstOfEncoded(ss[0], rest);
      DecodeOfEncoded(ss[1..]);
      assert (EncodeScalar(ss[0]) + rest)[|EncodeScalar(ss[0])|..] == rest;
    }
  }

  // ---------- TextEncoder and TextDecoder ----------

  /** `new TextEncoder().encode(t)`. */
  function Utf8Encode(t: Text16): seq<Byte> {
    EncodeScalars(Scalars(t))
  }

  /** `new TextDecoder().decode(bytes)`. */
  function Utf8Decode(bytes: seq<Byte>): Text16 {
    DropBom(Units(DecodeScalars(bytes)))
  }

  predicate StartsWithBom(t: Text16) {
    t != [] && t[0] == BOM
  }

  function DropBom(t: Text16): Text16 {
    if StartsWithBom(t) then t[1..] else t
  }

  /** What is left of a text that is encoded and decoded again. */
  function Reread(t: Text16): Text16 {
    Utf8Decode(Utf8Encode(t))
  }

  lemma RereadIs(t: Text16)
    ensures Reread(t) == DropBom(Units(Scalars(t)))
  {
    DecodeOfEncoded(Scalars(t));
  }

  /** A text survives encoding and decoding exactly when its surrogates are paired and it does not start with a byte
      order mark. */
  lemma RereadIff(t: Text16)
    ensures Reread(t) == t <==> Paired(t) && !StartsWithBom(t)
  {
    RereadIs(t);
    UnitsOfScalars(t);
  }

  /** A text read from bytes has no lone surrogate, so rereading it can only drop a byte order mark. */
  lemma RereadDecoded(bytes: seq<Byte>)
    ensures Reread(Utf8Decode(bytes)) == DropBom(Utf8Decode(bytes))
  {
    var ss := DecodeScalars(bytes);
    var kept := if StartsWithBom(Units(ss)) then ss[1..] else ss;
    if ss != [] {
      assert Units(ss) == UnitsOf(ss[0]) + Units(ss[1..]);
      if StartsWithBom(Units(ss)) {
        assert UnitsOf(ss[0]) == [BOM];
        assert Units(ss)[1..] == Units(ss[1..]);
      }
    }
    assert Utf8Decode(bytes) == Units(kept);
    ScalarsOfUnits(kept);
    RereadIs(Units(kept));
  }

  /** Two texts have the same encoding exactly when they differ at most in which lone surrogates they hold. */
  lemma SameEncodingIff(t: Text16, u: Text16)
    ensures Utf8Encode(t) == Utf8Encode(u) <==> Units(Scalars(t)) == Units(Scalars(u))
    ensures Paired(t) && Paired(u) ==> (Utf8Encode(t) == Utf8Encode(u) <==> t == u)
  {
    DecodeOfEncoded(Scalars(t));
    DecodeOfEncoded(Scalars(u));
    ScalarsOfUnits(Scalars(t));
    ScalarsOfUnits(Scalars(u));
    UnitsOfScalars(t);
    UnitsOfScalars(u);
  }

  /** A byte order mark before an "x" is lost, and any two lone surrogates are encoded alike. */
  lemma LossyTexts()
    ensures Reread([BOM, 0x78]) == [0x78]
    ensures Utf8Encode([0xD800]) == Utf8Encode([0xDC00])
  {
    RereadIs([BOM, 0x78]);
    UnitsOfScalars([BOM, 0x78]);
    assert [BOM, 0x78][1..] == [0x78] && [0x78][1..] == [];
    assert Paired([0x78]) && Paired([BOM, 0x78]);
    assert Scalars([0xD800][1..]) == [] && Scalars([0xDC00][1..]) == [];
    assert Scalars([0xD800]) == Scalars([0xDC00]);
  }

  // ---------- Passwords ----------

  predicate EndsInNul(t: Text16) {
    t != [] && t[|t| - 1] == 0
  }

  function StripNuls(bytes: seq<Byte>): seq<Byte> {
    if bytes != [] && bytes[|bytes| - 1] == 0 then StripNuls(bytes[..|bytes| - 1]) else bytes
  }

  /** What HMAC (section 2 of RFC 2104) keeps of a key: one no longer than the block is padded with zeros, so trailing
      zeros do not count. */
  function HmacKey(key: seq<Byte>, block: nat): (k: seq<Byte>)
    ensures |key| > block ==> k == key
  {
    if |key| <= block then StripNuls(key) else key
  }

  lemma LastByte(s: Scalar)
    requires s != 0
    ensures EncodeScalar(s)[|EncodeScalar(s)| - 1] != 0
  {
  }

  lemma {:induction false} EncodingEnds(ss: seq<Scalar>)
    requires ss != []
    ensures Units(ss) != [] && EncodeScalars(ss) != []
    ensures !EndsInNul(Units(ss)) ==> EncodeScalars(ss)[|EncodeScalars(ss)| - 1] != 0
  {
    if |ss| == 1 {
      assert ss[1..] == [] && Units(ss) == UnitsOf(ss[0]) + [] && EncodeScalars(ss) == EncodeScalar(ss[0]) + [];
      if ss[0] != 0 {
        LastByte(ss[0]);
      }
    } else {
      EncodingEnds(ss[1..]);
    }
  }

  /** Texts with paired surrogates that do not end in a zero character make different keys if they differ. */
  lemma DifferentKeys(t: Text16, u: Text16, block: nat)
    requires Paired(t) && Paired(u) && !EndsInNul(t) && !EndsInNul(u) && t != u
    ensures HmacKey(Utf8Encode(t), block) != HmacKey(Utf8Encode(u), block)
  {
    SameEncodingIff(t, u);
    Kept(t, block);
    Kept(u, block);
  }

  lemma Kept(t: Text16, block: nat)
    requires Paired(t) && !EndsInNul(t)
    ensures HmacKey(Utf8Encode(t), block) == Utf8Encode(t)
  {
    UnitsOfScalars(t);
    if Scalars(t) != [] {
      EncodingEnds(Scalars(t));
    }
  }

  /** A zero character is as good as no password at all. */
  lemma NulKey(block: nat)
    requires block > 0
    ensures HmacKey(Utf8Encode([0]), block) == HmacKey(Utf8Encode([]), block)
  {
    assert [0][1..] == [];
    assert Scalars([0]) == [0];
    assert Utf8Encode([0]) == [0];
    assert StripNuls([0]) == StripNuls([0][..0]) == [];
  }
}
