/**
 What the envelopes look like from outside: which schema writes which format, the fields and the strength of each
 format, and what the flags and the warnings tell.
 */
module EnvelopeFormat {
  import opened Wrappers
  import opened Terms
  import opened Utf
  import opened Envelopes
  import Strings
  import Decimals

  // ---------- Which schema writes which format ----------

  lemma Unsigned(s: string, numeral: string)
    requires s != "" && Decimals.IsDigit(s[0]) && Strings.Run(s) == numeral
    ensures IsCodexUpgraded(Some(s)) <==> Decimals.Val(numeral) >= 1
  {
    assert Strings.TrimStart(s) == s;
  }

  lemma Signed(sign: char, s: string, numeral: string)
    requires (sign == '+' || sign == '-') && Strings.Run(s) == numeral
    ensures IsCodexUpgraded(Some([sign] + s)) <==> sign == '+' && Decimals.Val(numeral) >= 1
  {
    Strings.AfterFirst(sign, s);
    assert Strings.TrimStart([sign] + s) == [sign] + s;
  }

  /** A schema version that starts with a numeral writes the new format exactly if the number is one or more, whatever
      follows the digits; without a schema version, the old format is written. */
  lemma SchemaDecides(numeral: string, tail: string)
    requires numeral != "" && Decimals.AllDigits(numeral) && (tail == "" || !Decimals.IsDigit(tail[0]))
    ensures IsCodexUpgraded(Some(numeral + tail)) <==> Decimals.Val(numeral) >= 1
    ensures IsCodexUpgraded(Some(['+'] + (numeral + tail))) <==> Decimals.Val(numeral) >= 1
    ensures !IsCodexUpgraded(Some(['-'] + (numeral + tail)))
    ensures !IsCodexUpgraded(None)
  {
    Strings.RunOfDigits(numeral, tail);
    var s := numeral + tail;
    assert s[0] == numeral[0];
    Unsigned(s, numeral);
    Signed('+', s, numeral);
    Signed('-', s, numeral);
  }

  lemma OtherSchemas(text: string)
    requires text == "" || (!Strings.IsSpace(text[0]) && !Decimals.IsDigit(text[0]) && text[0] != '+' && text[0] != '-')
    ensures !IsCodexUpgraded(Some(text))
  {
  }

  lemma OneDigit(d: char)
    requires Decimals.IsDigit(d)
    ensures IsCodexUpgraded(Some([d])) <==> d != '0'
  {
    SchemaDecides([d], "");
    assert [d] + "" == [d] && [d][..0] == "";
    assert Decimals.Val([d]) == Decimals.DigitValue(d);
  }

  lemma FirstSchemas()
    ensures !IsCodexUpgraded(Some(['0'])) && IsCodexUpgraded(Some(['1'])) && IsCodexUpgraded(Some(['2']))
  {
    OneDigit('0');
    OneDigit('1');
    OneDigit('2');
  }

  // ---------- The fields ----------

  function Salted(salt: seq<Byte>): Json {
    Str(B64Bytes(Raw(salt)))
  }

  /** An envelope names its salt, its nonce and its ciphertext, and the new format its version 2; the ciphertext is
      sealed with SHA-512 and 600,000 iterations in the new format, with SHA-256 and 10,000 in the old. */
  lemma WrittenFields(plain: Text16, password: Text16, schemaVersion: Option<string>, salt: seq<Byte>, iv: seq<Byte>)
    requires |salt| == 16 && |iv| == 12
    ensures var t := SmartEncrypt(plain, password, schemaVersion, salt, iv);
      && t.B64Text? && t.of.Text? && t.of.json.Obj?
      && var j, v2 := t.of.json, IsCodexUpgraded(schemaVersion);
        && Field(j, "salt") == Some(Salted(salt)) && Field(j, "iv") == Some(Salted(iv))
        && Field(j, "v") == (if v2 then Some(Num(2)) else None)
        && Field(j, "ciphertext") == Some(Str(B64Bytes(Sealed(
             if v2 then Pbkdf2("SHA-512", 600_000, Raw(salt), HmacKey(Utf8Encode(password), 128))
             else Pbkdf2("SHA-256", 10_000, Raw(salt), HmacKey(Utf8Encode(password), 64)),
             Raw(iv), Utf8Encode(plain)))))
  {
  }

  /** Opening what was written costs the iterations of its format and nothing but. */
  lemma WrittenCost(plain: Text16, password: Text16, schemaVersion: Option<string>, salt: seq<Byte>, iv: seq<Byte>)
    requires |salt| == 16 && |iv| == 12
    ensures CostOf(SmartEncrypt(plain, password, schemaVersion, salt, iv)) ==
      if IsCodexUpgraded(schemaVersion) then 600_000 else 10_000
  {
    WrittenFields(plain, password, schemaVersion, salt, iv);
    SmartRoundTrip(plain, password, password, schemaVersion, salt, iv);
  }

  // ---------- Flags and warnings ----------

  /** The flag says legacy exactly for what was written without an upgraded schema. */
  lemma FlagTellsFormat(plain: Text16, password: Text16, schemaVersion: Option<string>, salt: seq<Byte>, iv: seq<Byte>)
    requires |salt| == 16 && |iv| == 12
    ensures var t := SmartEncrypt(plain, password, schemaVersion, salt, iv);
      WithDetails(t, OpenedAs(t, password)) == Ok(Details(Reread(plain), !IsCodexUpgraded(schemaVersion)))
  {
    SmartRoundTrip(plain, password, password, schemaVersion, salt, iv);
  }

  /** Opening an old envelope warns, in the two-format reader only with the right password, in the dispatching one with
      any; opening a new one never does. */
  lemma WhoWarns(plain: Text16, password: Text16, other: Text16, schemaVersion: Option<string>, salt: seq<Byte>,
                 iv: seq<Byte>)
    requires |salt| == 16 && |iv| == 12
    ensures var t, w := SmartEncrypt(plain, password, schemaVersion, salt, iv), Warning(false, 0);
      if IsCodexUpgraded(schemaVersion) then
        WarningAfter(w, DecryptV2(t, other)).logged == WarningAfter(w, Smart(t, other)).logged == 0
      else
        && WarningAfter(w, Smart(t, other)).logged == 1
        && (WarningAfter(w, DecryptV2(t, other)).logged == 1 <==>
             HmacKey(Utf8Encode(other), 64) == HmacKey(Utf8Encode(password), 64))
        && WarningAfter(w, DecryptV2(t, other)).logged <= 1
  {
    SmartRoundTrip(plain, password, other, schemaVersion, salt, iv);
  }

  /** A known encoding of every length. */
  lemma KnownEncodings()
    ensures Utf8Encode([0x41]) == [0x41] && Utf8Encode([0xE9]) == [0xC3, 0xA9]
    ensures Utf8Encode([0x20AC]) == [0xE2, 0x82, 0xAC] && Utf8Encode([0xD83D, 0xDE00]) == [0xF0, 0x9F, 0x98, 0x80]
  {
    OneUnit(0x41);
    OneUnit(0xE9);
    OneUnit(0x20AC);
    assert [0xD83D, 0xDE00][2..] == [];
    assert Scalars([0xD83D, 0xDE00]) == [0x1F600] + [];
    OneScalar(0x1F600);
  }

  lemma OneUnit(u: CodeUnit)
    requires !IsLead(u) && !IsTrail(u)
    ensures Utf8Encode([u]) == EncodeScalar(u)
  {
    assert [u][1..] == [];
    assert Scalars([u]) == [u] + [];
    OneScalar(u);
  }

  lemma OneScalar(s: Scalar)
    ensures EncodeScalars([s]) == EncodeScalar(s)
  {
    assert [s][1..] == [] && EncodeScalar(s) + [] == EncodeScalar(s);
  }
}
