/**
 Encrypted envelopes in their two formats, and the one-shot warning about the old one. Key derivation and
 AES-GCM are symbolic: opening succeeds exactly with the key and the nonce that sealed. Base64 texts of bytes
 appear only as such terms; any other text is not base64.
 */
module Envelopes {
  import opened Wrappers
  import opened Terms
  import opened Utf
  import Strings
  import Decimals

  datatype CryptoError = CorruptEnvelope | WrongPassword

  type Opened = Result<Text16, CryptoError>

  const V1_ITERATIONS := 10_000
  const V2_ITERATIONS := 600_000

  /** What the key derivation of a format sees of a password: the blocks of SHA-256 and SHA-512 have 64 and 128
      bytes. */
  function PasswordKey(v2: bool, password: Text16): seq<Byte> {
    HmacKey(Utf8Encode(password), if v2 then 128 else 64)
  }

  function KeyV1(salt: Bytes, password: Text16): CipherKey {
    Pbkdf2("SHA-256", V1_ITERATIONS, salt, PasswordKey(false, password))
  }

  function KeyV2(salt: Bytes, password: Text16): CipherKey {
    Pbkdf2("SHA-512", V2_ITERATIONS, salt, PasswordKey(true, password))
  }

  // ---------- Writing ----------

  function Fields(ciphertext: Bytes, iv: Bytes, salt: Bytes): map<string, Json> {
    map["ciphertext" := Str(B64Bytes(ciphertext)), "iv" := Str(B64Bytes(iv)), "salt" := Str(B64Bytes(salt))]
  }

  /** The random salt and nonce are parameters. */
  function EncryptString(plain: Text16, password: Text16, salt: seq<Byte>, iv: seq<Byte>): Term
    requires |salt| == 16 && |iv| == 12
  {
    B64Text(Text(Obj(Fields(Sealed(KeyV1(Raw(salt), password), Raw(iv), Utf8Encode(plain)), Raw(iv), Raw(salt)))))
  }

  function EncryptStringV2(plain: Text16, password: Text16, salt: seq<Byte>, iv: seq<Byte>): Term
    requires |salt| == 16 && |iv| == 12
  {
    var fields := Fields(Sealed(KeyV2(Raw(salt), password), Raw(iv), Utf8Encode(plain)), Raw(iv), Raw(salt));
    B64Text(Text(Obj(fields["v" := Num(2)])))
  }

  /** `parseInt(schemaVersion || "0", 10) >= 1`. */
  function IsCodexUpgraded(schemaVersion: Option<string>): bool {
    schemaVersion.Some?
    && var t := Strings.TrimStart(schemaVersion.value);
       var digits := Strings.Run(if t != "" && t[0] in {'+', '-'} then t[1..] else t);
       !(t != "" && t[0] == '-') && Decimals.Val(digits) >= 1
  }

  function SmartEncrypt(plain: Text16, password: Text16, schemaVersion: Option<string>, salt: seq<Byte>, iv: seq<Byte>)
    : Term
    requires |salt| == 16 && |iv| == 12
  {
    if IsCodexUpgraded(schemaVersion) then EncryptStringV2(plain, password, salt, iv)
    else EncryptString(plain, password, salt, iv)
  }

  // ---------- Reading ----------

  /** `atob` of a text, and `JSON.parse`. */
  function Decoded(t: Term): Option<Json> {
    if t.B64Text? then Parse(t.of) else None
  }

  predicate StringOrAbsent(j: Json, name: string) {
    Field(j, name).Some? ==> Field(j, name).value.Str?
  }

  /** The three fields of an envelope are strings if they are there at all. */
  predicate Typed(t: Term) {
    Decoded(t).Some? ==>
      var j := Decoded(t).value;
      StringOrAbsent(j, "salt") && StringOrAbsent(j, "iv") && StringOrAbsent(j, "ciphertext")
  }

  function IsEncryptedV2(t: Term): bool {
    Decoded(t).Some? && Field(Decoded(t).value, "v") == Some(Num(2))
  }

  function AllEncryptedV2(entries: seq<Term>): bool {
    |entries| > 0 && forall t <- entries :: IsEncryptedV2(t)
  }

  function BytesField(j: Json, name: string): Option<Bytes> {
    match Field(j, name)
    case Some(Str(B64Bytes(b))) => Some(b)
    case _ => None
  }

  /** The first n bytes of a longer byte string; a ciphertext is as long as its text plus a tag of 16 bytes. */
  function Truncated(b: Bytes, n: nat): Bytes
    requires n <= 16
  {
    match b
    case Raw(data) => if |data| > n then Raw(data[..n]) else b
    case Head(of, m) => if m > n then Head(of, n) else b
    case Sealed(_, _, plain) => if plain == [] && n == 16 then b else Head(b, n)
  }

  function Unseal(key: CipherKey, iv: Bytes, ciphertext: Bytes): Opened {
    if ciphertext.Sealed? && ciphertext.key == key && ciphertext.iv == iv then Ok(Utf8Decode(ciphertext.plain))
    else Err(WrongPassword)
  }

  /** An object with the three fields, all of them base64 of bytes. */
  predicate WellFormed(t: Term) {
    && Decoded(t).Some?
    && var j := Decoded(t).value;
      BytesField(j, "salt").Some? && BytesField(j, "iv").Some? && BytesField(j, "ciphertext").Some?
  }

  function OpenedV1(t: Term, password: Text16): Opened {
    if !WellFormed(t) then Err(CorruptEnvelope)
    else
      var j := Decoded(t).value;
      Unseal(KeyV1(Truncated(BytesField(j, "salt").value, 16), password),
             Truncated(BytesField(j, "iv").value, 12), BytesField(j, "ciphertext").value)
  }

  function OpenedV2(t: Term, password: Text16): Opened {
    if !WellFormed(t) then Err(CorruptEnvelope)
    else
      var j := Decoded(t).value;
      Unseal(KeyV2(BytesField(j, "salt").value, password), BytesField(j, "iv").value, BytesField(j, "ciphertext").value)
  }

  /** What opening an envelope gives, in the format it declares. */
  function OpenedAs(t: Term, password: Text16): Opened {
    if IsEncryptedV2(t) then OpenedV2(t, password) else OpenedV1(t, password)
  }

  /** The PBKDF2 iterations opening an envelope costs. */
  function CostOf(t: Term): nat {
    if !WellFormed(t) then 0 else if IsEncryptedV2(t) then V2_ITERATIONS else V1_ITERATIONS
  }

  datatype Details = Details(plaintext: Text16, wasLegacyV1: bool)

  function WithDetails(t: Term, r: Opened): Result<Details, CryptoError> {
    match r
    case Ok(p) => Ok(Details(p, !IsEncryptedV2(t)))
    case Err(e) => Err(e)
  }

  /** The module: its one-shot flag, the number of warnings logged, and the iterations spent so far. */
  class Crypto {
    var v1WarningEmitted: bool
    var warnings: nat
    var iterations: nat

    constructor ()
      ensures !v1WarningEmitted && warnings == 0 && iterations == 0
    {
      v1WarningEmitted, warnings, iterations := false, 0, 0;
    }

    function State(): Warning
      reads this`v1WarningEmitted, this`warnings
    {
      Warning(v1WarningEmitted, warnings)
    }

    method EmitV1WarningOnce()
      modifies this`v1WarningEmitted, this`warnings
      ensures State() == Warned(old(State()))
    {
      if v1WarningEmitted { return; }
      v1WarningEmitted := true;
      warnings := warnings + 1;
    }

    method ResetV1WarningEmitted()
      modifies this`v1WarningEmitted
      ensures State() == WarningAfter(old(State()), Reset)
    {
      v1WarningEmitted := false;
    }

    method DecryptString(t: Term, password: Text16) returns (r: Opened)
      requires Typed(t)
      modifies this`iterations
      ensures r == OpenedV1(t, password)
      ensures iterations == old(iterations) + if WellFormed(t) then V1_ITERATIONS else 0
    {
      var parsed := Decoded(t);
      if parsed.None? { return Err(CorruptEnvelope); }
      if !parsed.value.Obj? && !parsed.value.Arr? { return Err(CorruptEnvelope); }
      var salt := BytesField(parsed.value, "salt");
      if salt.None? { return Err(CorruptEnvelope); }
      var iv := BytesField(parsed.value, "iv");
      if iv.None? { return Err(CorruptEnvelope); }
      var ciphertext := BytesField(parsed.value, "ciphertext");
      if ciphertext.None? { return Err(CorruptEnvelope); }
      var iv12, salt16 := Truncated(iv.value, 12), Truncated(salt.value, 16);
      iterations := iterations + V1_ITERATIONS;
      var key := KeyV1(salt16, password);
      r := Unseal(key, iv12, ciphertext.value);
    }

    /** The branch on the version comes after the parse; the fallback warns only once it has decrypted. */
    method DecryptStringV2(t: Term, password: Text16) returns (r: Opened)
      requires Typed(t)
      modifies this
      ensures r == OpenedAs(t, password)
      ensures iterations == old(iterations) + CostOf(t)
      ensures State() == WarningAfter(old(State()), DecryptV2(t, password))
    {
      var parsed := Decoded(t);
      if parsed.None? { return Err(CorruptEnvelope); }
      if !parsed.value.Obj? && !parsed.value.Arr? { return Err(CorruptEnvelope); }
      var salt := BytesField(parsed.value, "salt");
      var iv := BytesField(parsed.value, "iv");
      var ciphertext := BytesField(parsed.value, "ciphertext");
      if salt.None? || iv.None? || ciphertext.None? { return Err(CorruptEnvelope); }
      if Field(parsed.value, "v") == Some(Num(2)) {
        iterations := iterations + V2_ITERATIONS;
        return Unseal(KeyV2(salt.value, password), iv.value, ciphertext.value);
      }
      var iv1, salt1 := Truncated(iv.value, 12), Truncated(salt.value, 16);
      iterations := iterations + V1_ITERATIONS;
      r := Unseal(KeyV1(salt1, password), iv1, ciphertext.value);
      if r.Ok? {
        EmitV1WarningOnce();
      }
    }

    method DecryptStringV2WithDetails(t: Term, password: Text16) returns (r: Result<Details, CryptoError>)
      requires Typed(t)
      modifies this
      ensures r == WithDetails(t, OpenedAs(t, password))
      ensures iterations == old(iterations) + CostOf(t)
      ensures State() == WarningAfter(old(State()), DecryptV2(t, password))
    {
      var wasLegacyV1 := !IsEncryptedV2(t);
      var result := DecryptStringV2(t, password);
      r := if result.Ok? then Ok(Details(result.value, wasLegacyV1)) else Err(result.error);
    }

    /** One attempt in the declared format; the warning comes before the attempt. */
    method SmartDecrypt(t: Term, password: Text16) returns (r: Opened)
      requires Typed(t)
      modifies this
      ensures r == OpenedAs(t, password)
      ensures iterations == old(iterations) + CostOf(t)
      ensures State() == WarningAfter(old(State()), Smart(t, password))
    {
      if IsEncryptedV2(t) {
        r := DecryptStringV2(t, password);
      } else {
        EmitV1WarningOnce();
        r := DecryptString(t, password);
      }
    }

    method SmartDecryptWithDetails(t: Term, password: Text16) returns (r: Result<Details, CryptoError>)
      requires Typed(t)
      modifies this
      ensures r == WithDetails(t, OpenedAs(t, password))
      ensures iterations == old(iterations) + CostOf(t)
      ensures State() == WarningAfter(old(State()), Smart(t, password))
    {
      var wasLegacyV1 := !IsEncryptedV2(t);
      var result := SmartDecrypt(t, password);
      r := if result.Ok? then Ok(Details(result.value, wasLegacyV1)) else Err(result.error);
    }
  }

  // ---------- Round trips ----------

  /** An envelope of the given parts opens as its declared format says. */
  lemma OpenFields(v2: bool, ciphertext: Bytes, iv: Bytes, salt: Bytes, password: Text16)
    ensures var fields := Fields(ciphertext, iv, salt);
      var t := B64Text(Text(Obj(if v2 then fields["v" := Num(2)] else fields)));
      && Typed(t) && WellFormed(t) && IsEncryptedV2(t) == v2
      && OpenedAs(t, password) ==
           if v2 then Unseal(KeyV2(salt, password), iv, ciphertext)
           else Unseal(KeyV1(Truncated(salt, 16), password), Truncated(iv, 12), ciphertext)
  {
    var fields := Fields(ciphertext, iv, salt);
    assert fields["salt"] == Str(B64Bytes(salt)) && fields["iv"] == Str(B64Bytes(iv));
  }

  /** Decrypting with the right password gives what text encoding leaves of the plaintext, whatever the schema version
      and the randomness; another password is refused as wrong exactly if it makes another key; and the format written
      is the one the schema asks for. */
  lemma SmartRoundTrip(plain: Text16, password: Text16, other: Text16, schemaVersion: Option<string>, salt: seq<Byte>,
                       iv: seq<Byte>)
    requires |salt| == 16 && |iv| == 12
    ensures var t, v2 := SmartEncrypt(plain, password, schemaVersion, salt, iv), IsCodexUpgraded(schemaVersion);
      && Typed(t)
      && (IsEncryptedV2(t) <==> v2)
      && OpenedAs(t, password) == Ok(Reread(plain))
      && OpenedAs(t, other) ==
           if PasswordKey(v2, other) == PasswordKey(v2, password) then Ok(Reread(plain)) else Err(WrongPassword)
  {
    var v2 := IsCodexUpgraded(schemaVersion);
    var key := if v2 then KeyV2(Raw(salt), password) else KeyV1(Raw(salt), password);
    var ciphertext := Sealed(key, Raw(iv), Utf8Encode(plain));
    OpenFields(v2, ciphertext, Raw(iv), Raw(salt), password);
    OpenFields(v2, ciphertext, Raw(iv), Raw(salt), other);
  }

  /** A password that says what it is: no lone surrogate, and no zero character at the end. */
  predicate ProperPassword(password: Text16) {
    Paired(password) && !EndsInNul(password)
  }

  /** Decryption inverts encryption exactly on the texts whose surrogates are paired and that do not start with a byte
      order mark; among proper passwords, no other one opens the envelope. */
  lemma SmartRoundTripIff(plain: Text16, password: Text16, other: Text16, schemaVersion: Option<string>,
                          salt: seq<Byte>, iv: seq<Byte>)
    requires |salt| == 16 && |iv| == 12
    ensures var t := SmartEncrypt(plain, password, schemaVersion, salt, iv);
      && (OpenedAs(t, password) == Ok(plain) <==> Paired(plain) && !StartsWithBom(plain))
      && (ProperPassword(password) && ProperPassword(other) && other != password ==>
           OpenedAs(t, other) == Err(WrongPassword))
  {
    SmartRoundTrip(plain, password, other, schemaVersion, salt, iv);
    RereadIff(plain);
    if ProperPassword(password) && ProperPassword(other) && other != password {
      DifferentKeys(other, password, if IsCodexUpgraded(schemaVersion) then 128 else 64);
    }
  }

  /** A plaintext that comes back without its first character, and a password that opens what another one closed: it
      differs in a lone surrogate, or in a zero character at the end. */
  lemma LossyEnvelopes(schemaVersion: Option<string>, salt: seq<Byte>, iv: seq<Byte>)
    requires |salt| == 16 && |iv| == 12
    ensures var t := SmartEncrypt([BOM, 0x78], [0xD800], schemaVersion, salt, iv);
      OpenedAs(t, [0xD800]) == OpenedAs(t, [0xDC00]) == Ok([0x78])
    ensures OpenedAs(SmartEncrypt([0x78], [], schemaVersion, salt, iv), [0]) == Ok([0x78])
  {
    LossyTexts();
    SmartRoundTrip([BOM, 0x78], [0xD800], [0xDC00], schemaVersion, salt, iv);
    SmartRoundTrip([0x78], [], [0], schemaVersion, salt, iv);
    NulKey(if IsCodexUpgraded(schemaVersion) then 128 else 64);
    RereadIff([0x78]);
    assert [0x78][1..] == [] && Paired([]);
  }

  /** If a password opens an envelope, what it gives was decoded from the sealed bytes, and exactly the passwords that
      make the same key open it. */
  lemma OpensOnlyWhatWasSealed(t: Term, password: Text16, other: Text16)
    requires OpenedAs(t, password).Ok?
    ensures WellFormed(t)
    ensures var c := BytesField(Decoded(t).value, "ciphertext").value;
      && c.Sealed? && OpenedAs(t, password) == Ok(Utf8Decode(c.plain))
      && c.key.hmacKey == PasswordKey(IsEncryptedV2(t), password)
    ensures OpenedAs(t, other) ==
      if PasswordKey(IsEncryptedV2(t), other) == PasswordKey(IsEncryptedV2(t), password) then OpenedAs(t, password)
      else Err(WrongPassword)
  {
  }

  /** An old envelope whose nonce and salt carry the rest of a pooled buffer still opens; the new format does not
      tolerate one. */
  lemma PooledBuffers(plain: seq<Byte>, password: Text16, salt: seq<Byte>, iv: seq<Byte>, restOfSalt: seq<Byte>,
                      restOfIv: seq<Byte>)
    requires |salt| == 16 && |iv| == 12
    ensures var sealed := Sealed(KeyV1(Raw(salt), password), Raw(iv), plain);
      var pooled := Fields(sealed, Raw(iv + restOfIv), Raw(salt + restOfSalt));
      OpenedAs(B64Text(Text(Obj(pooled))), password) == Ok(Utf8Decode(plain))
    ensures restOfIv != [] ==>
      var sealed := Sealed(KeyV2(Raw(salt), password), Raw(iv), plain);
      var pooled := Fields(sealed, Raw(iv + restOfIv), Raw(salt))["v" := Num(2)];
      OpenedAs(B64Text(Text(Obj(pooled))), password) == Err(WrongPassword)
  {
    assert (salt + restOfSalt)[..16] == salt && (iv + restOfIv)[..12] == iv;
    assert restOfSalt == [] ==> salt + restOfSalt == salt;
    assert restOfIv == [] ==> iv + restOfIv == iv;
    var v1, v2 := KeyV1(Raw(salt), password), KeyV2(Raw(salt), password);
    OpenFields(false, Sealed(v1, Raw(iv), plain), Raw(iv + restOfIv), Raw(salt + restOfSalt), password);
    OpenFields(true, Sealed(v2, Raw(iv), plain), Raw(iv + restOfIv), Raw(salt), password);
  }

  /** The old reader opens no envelope in the new format that any password opens. */
  lemma OldReader(t: Term, password: Text16, other: Text16)
    requires IsEncryptedV2(t) && OpenedAs(t, password).Ok?
    ensures OpenedV1(t, other) == Err(WrongPassword)
  {
    OpensOnlyWhatWasSealed(t, password, password);
    assert KeyV2(BytesField(Decoded(t).value, "salt").value, password).hash != "SHA-256";
  }

  // ---------- Warnings ----------

  datatype Warning = Warning(emitted: bool, logged: nat)

  function Warned(w: Warning): Warning {
    if w.emitted then w else Warning(true, w.logged + 1)
  }

  /** The operations a program can interleave; the variants with details behave like the plain ones. */
  datatype Op = DecryptV2(t: Term, password: Text16) | Smart(t: Term, password: Text16) | Reset

  /** Whether an operation has something to warn about. */
  predicate Legacy(op: Op) {
    match op
    case DecryptV2(t, password) => !IsEncryptedV2(t) && OpenedV1(t, password).Ok?
    case Smart(t, _) => !IsEncryptedV2(t)
    case Reset => false
  }

  function WarningAfter(w: Warning, op: Op): Warning {
    if op.Reset? then w.(emitted := false) else if Legacy(op) then Warned(w) else w
  }

  function WarningsAfter(w: Warning, ops: seq<Op>): Warning
    decreases |ops|
  {
    if ops == [] then w else WarningsAfter(WarningAfter(w, ops[0]), ops[1..])
  }

  function Resets(ops: seq<Op>): nat {
    if ops == [] then 0 else (if ops[0].Reset? then 1 else 0) + Resets(ops[1..])
  }

  /** Any run logs at most one warning before each reset and one after the last. */
  lemma {:induction false} AtMostOnePerReset(w: Warning, ops: seq<Op>)
    ensures w.logged <= WarningsAfter(w, ops).logged
    ensures WarningsAfter(w, ops).logged + One(w.emitted) <= w.logged + Resets(ops) + One(WarningsAfter(w, ops).emitted)
    decreases |ops|
  {
    if ops != [] {
      AtMostOnePerReset(WarningAfter(w, ops[0]), ops[1..]);
    }
  }

  /** Without a reset, a run logs exactly one warning if it meets anything legacy while the flag is down, and
      otherwise none. */
  lemma {:induction false} OneWarningPerStretch(w: Warning, ops: seq<Op>)
    requires forall op <- ops :: !op.Reset?
    ensures var met := exists op <- ops :: Legacy(op);
      && WarningsAfter(w, ops).logged == w.logged + (if met && !w.emitted then 1 else 0)
      && WarningsAfter(w, ops).emitted == (w.emitted || met)
    decreases |ops|
  {
    if ops != [] {
      OneWarningPerStretch(WarningAfter(w, ops[0]), ops[1..]);
      assert ops == [ops[0]] + ops[1..];
    }
  }

  // ---------- Upgrading a codex ----------

  datatype Upgrade = Upgrade(index: nat, salt: seq<Byte>, iv: seq<Byte>)

  /** The entry is decrypted and written again in the new format; an entry that does not open is left alone. */
  function Upgraded(entries: seq<Term>, password: Text16, u: Upgrade): seq<Term>
    requires u.index < |entries| && |u.salt| == 16 && |u.iv| == 12
  {
    match OpenedAs(entries[u.index], password)
    case Ok(plain) => entries[u.index := EncryptStringV2(plain, password, u.salt, u.iv)]
    case Err(_) => entries
  }

  predicate Fits(us: seq<Upgrade>, n: nat) {
    forall u <- us :: u.index < n && |u.salt| == 16 && |u.iv| == 12
  }

  function UpgradedAll(entries: seq<Term>, password: Text16, us: seq<Upgrade>): seq<Term>
    requires Fits(us, |entries|)
    decreases |us|
  {
    if us == [] then entries
    else
      assert us[0] in us;
      UpgradedAll(Upgraded(entries, password, us[0]), password, us[1..])
  }

  /** How often an entry is upgraded. */
  function Times(us: seq<Upgrade>, i: nat): nat {
    if us == [] then 0 else (if us[0].index == i then 1 else 0) + Times(us[1..], i)
  }

  function DropBoms(t: Text16, n: nat): Text16 {
    if n == 0 then t else DropBoms(DropBom(t), n - 1)
  }

  lemma {:induction false} DropBomsIff(t: Text16, n: nat)
    ensures |DropBoms(t, n)| <= |t|
    ensures DropBoms(t, n) == t <==> n == 0 || !StartsWithBom(t)
    decreases n
  {
    if n > 0 {
      DropBomsIff(DropBom(t), n - 1);
    }
  }

  function AfterUpgrades(r: Opened, n: nat): Opened {
    if r.Ok? then Ok(DropBoms(r.value, n)) else r
  }

  /** What has become of an entry after n upgrades: it opens to what it opened to, without as many leading byte order
      marks, and it is in the new format exactly if it was, or was upgraded and opens. */
  predicate EntryAfter(before: Term, after: Term, password: Text16, n: nat) {
    && OpenedAs(after, password) == AfterUpgrades(OpenedAs(before, password), n)
    && (IsEncryptedV2(after) <==> IsEncryptedV2(before) || (OpenedAs(before, password).Ok? && n > 0))
  }

  lemma EntryOnceMore(before: Term, mid: Term, after: Term, password: Text16, n: nat)
    requires EntryAfter(before, mid, password, 1) && EntryAfter(mid, after, password, n)
    ensures EntryAfter(before, after, password, n + 1)
  {
    if OpenedAs(before, password).Ok? {
      assert DropBoms(OpenedAs(before, password).value, 1) == DropBom(OpenedAs(before, password).value);
    }
  }

  /** Upgrading in any order, any number of times, has on every entry exactly the effect of its own upgrades. */
  lemma {:induction false} UpgradeOutcome(entries: seq<Term>, password: Text16, us: seq<Upgrade>)
    requires Fits(us, |entries|)
    ensures var after := UpgradedAll(entries, password, us);
      && |after| == |entries|
      && forall i :: 0 <= i < |entries| ==> EntryAfter(entries[i], after[i], password, Times(us, i))
    decreases |us|
  {
    if us != [] {
      assert us == [us[0]] + us[1..];
      var mid := Upgraded(entries, password, us[0]);
      UpgradeStep(entries, password, us[0]);
      UpgradeOutcome(mid, password, us[1..]);
      var after := UpgradedAll(entries, password, us);
      forall i | 0 <= i < |entries| ensures EntryAfter(entries[i], after[i], password, Times(us, i)) {
        if i == us[0].index {
          EntryOnceMore(entries[i], mid[i], after[i], password, Times(us[1..], i));
        }
      }
    }
  }

  lemma UpgradeStep(entries: seq<Term>, password: Text16, u: Upgrade)
    requires u.index < |entries| && |u.salt| == 16 && |u.iv| == 12
    ensures var after := Upgraded(entries, password, u);
      && |after| == |entries|
      && forall i :: 0 <= i < |entries| ==>
        if i == u.index then EntryAfter(entries[i], after[i], password, 1) else after[i] == entries[i]
  {
    var found := OpenedAs(entries[u.index], password);
    if found.Ok? {
      OpensOnlyWhatWasSealed(entries[u.index], password, password);
      RereadDecoded(BytesField(Decoded(entries[u.index]).value, "ciphertext").value.plain);
      var ciphertext := Sealed(KeyV2(Raw(u.salt), password), Raw(u.iv), Utf8Encode(found.value));
      OpenFields(true, ciphertext, Raw(u.iv), Raw(u.salt), password);
      assert DropBoms(found.value, 1) == DropBom(found.value);
    }
  }

  /** Upgrading keeps what an entry opens to exactly when it is not upgraded, or does not open, or opens to a text that
      does not start with a byte order mark. */
  lemma UpgradeKeepsEntryIff(entries: seq<Term>, password: Text16, us: seq<Upgrade>, i: nat)
    requires Fits(us, |entries|) && i < |entries|
    ensures |UpgradedAll(entries, password, us)| == |entries|
    ensures var found := OpenedAs(entries[i], password);
      OpenedAs(UpgradedAll(entries, password, us)[i], password) == found <==>
        Times(us, i) == 0 || found.Err? || !StartsWithBom(found.value)
  {
    UpgradeOutcome(entries, password, us);
    assert EntryAfter(entries[i], UpgradedAll(entries, password, us)[i], password, Times(us, i));
    var found := OpenedAs(entries[i], password);
    if found.Ok? {
      DropBomsIff(found.value, Times(us, i));
    }
  }

  /** A codex whose entries all open ends all in the new format exactly when it is not empty and every entry in the
      old one has been upgraded; it still opens throughout; and the old reader opens nothing that is upgraded. */
  lemma UpgradeComplete(entries: seq<Term>, password: Text16, us: seq<Upgrade>)
    requires Fits(us, |entries|) && forall t <- entries :: OpenedAs(t, password).Ok?
    ensures var after := UpgradedAll(entries, password, us);
      && (forall t <- after :: OpenedAs(t, password).Ok?)
      && (forall t <- after, other :: IsEncryptedV2(t) ==> OpenedV1(t, other) == Err(WrongPassword))
      && (AllEncryptedV2(after) <==>
           |entries| > 0 && forall i :: 0 <= i < |entries| ==> IsEncryptedV2(entries[i]) || Times(us, i) > 0)
  {
    UpgradeOutcome(entries, password, us);
    var after := UpgradedAll(entries, password, us);
    forall i | 0 <= i < |entries|
      ensures OpenedAs(after[i], password).Ok?
      ensures IsEncryptedV2(after[i]) <==> IsEncryptedV2(entries[i]) || Times(us, i) > 0
    {
      assert entries[i] in entries && EntryAfter(entries[i], after[i], password, Times(us, i));
    }
    forall t, other | t in after && IsEncryptedV2(t) ensures OpenedV1(t, other) == Err(WrongPassword) {
      OldReader(t, password, other);
    }
    AllByIndex(after);
  }

  lemma AllByIndex(entries: seq<Term>)
    ensures AllEncryptedV2(entries) <==> |entries| > 0 && forall i :: 0 <= i < |entries| ==> IsEncryptedV2(entries[i])
  {
    assert forall i :: 0 <= i < |entries| ==> entries[i] in entries;
  }
}
