/**
 Partial signing by several parties: a transaction is handed from one to the next as a JSON envelope with its
 hash, each party fills the slots of its own keys, and existing signatures can be verified on the way.
 */
module PartialSig {
  import opened Wrappers
  import opened Seqs
  import opened Terms
  import opened UniversalSign
  import Base64Url

  const FORMAT := Lit("ouronet-partial-sig")
  const VERSION := 1

  function KadenaHash(cmd: Term): Term {
    Digest(cmd)
  }

  // ---------- Slots ----------

  /** The tolerant reader: anything unexpected in the command reads as no signer. */
  function ReadSignerPubKeys(cmd: Term): seq<Term> {
    match Parse(cmd)
    case None => []
    case Some(j) =>
      var signers := Field(j, "signers");
      if signers.Some? && signers.value.Arr? then PubKeysOf(signers.value.items) else []
  }

  function PubKeysOf(items: seq<Json>): seq<Term> {
    if items == [] then []
    else (if HasPubKey(items[0]) then [PubKeyField(items[0])] else []) + PubKeysOf(items[1..])
  }

  lemma {:induction false} PubKeysOfAll(items: seq<Json>)
    requires forall s <- items :: HasPubKey(s)
    ensures |PubKeysOf(items)| == |items|
    ensures forall i :: 0 <= i < |items| ==> PubKeysOf(items)[i] == PubKeyField(items[i])
  {
    if items != [] {
      PubKeysOfAll(items[1..]);
    }
  }

  /** On the commands this model covers both readers see the same signers. */
  lemma ReadersAgree(cmd: Term)
    requires Covered(cmd)
    ensures ReadSignerPubKeys(cmd) == Signers(cmd)
  {
    var signers := Field(cmd.json, "signers");
    if signers.Some? {
      PubKeysOfAll(signers.value.items);
    }
  }

  predicate SlotFilled(tx: Tx, i: nat) {
    i < |tx.sigs| && Filled(tx.sigs[i])
  }

  /** The declared signers from index `i` on whose slot is filled, or is not. */
  function SignersWhere(pubs: seq<Term>, tx: Tx, filled: bool, i: nat): seq<Term>
    decreases |pubs| - i
  {
    if i >= |pubs| then []
    else (if SlotFilled(tx, i) == filled then [pubs[i]] else []) + SignersWhere(pubs, tx, filled, i + 1)
  }

  lemma {:induction false} NoneWhere(pubs: seq<Term>, tx: Tx, filled: bool, i: nat)
    ensures SignersWhere(pubs, tx, filled, i) == [] <==>
      forall k: nat :: i <= k < |pubs| ==> SlotFilled(tx, k) != filled
    decreases |pubs| - i
  {
    if i < |pubs| {
      NoneWhere(pubs, tx, filled, i + 1);
    }
  }

  function GetMissingSigners(tx: Tx): seq<Term> {
    SignersWhere(ReadSignerPubKeys(tx.cmd), tx, false, 0)
  }

  function GetFilledSigners(tx: Tx): seq<Term> {
    SignersWhere(ReadSignerPubKeys(tx.cmd), tx, true, 0)
  }

  /** Fully signed means that every declared signer's slot is filled. */
  predicate IsFullySigned(tx: Tx)
    ensures IsFullySigned(tx) <==> forall i: nat :: i < |ReadSignerPubKeys(tx.cmd)| ==> SlotFilled(tx, i)
  {
    NoneWhere(ReadSignerPubKeys(tx.cmd), tx, false, 0);
    |GetMissingSigners(tx)| == 0
  }

  lemma OneMore(x: Term, a: seq<Term>, b: seq<Term>, c: seq<Term>)
    requires multiset(a) + multiset(b) == multiset(c)
    ensures multiset([x] + a) + multiset(b) == multiset([x] + c)
    ensures multiset(a) + multiset([x] + b) == multiset([x] + c)
  {
  }

  lemma WhereStep(pubs: seq<Term>, tx: Tx, filled: bool, i: nat)
    requires i < |pubs|
    ensures SignersWhere(pubs, tx, filled, i) ==
      if SlotFilled(tx, i) == filled then [pubs[i]] + SignersWhere(pubs, tx, filled, i + 1)
      else SignersWhere(pubs, tx, filled, i + 1)
  {
  }

  lemma {:induction false} WhereSplit(pubs: seq<Term>, tx: Tx, i: nat)
    requires i <= |pubs|
    ensures multiset(SignersWhere(pubs, tx, true, i)) + multiset(SignersWhere(pubs, tx, false, i))
         == multiset(pubs[i..])
    decreases |pubs| - i
  {
    if i < |pubs| {
      var filled, missing := SignersWhere(pubs, tx, true, i + 1), SignersWhere(pubs, tx, false, i + 1);
      WhereSplit(pubs, tx, i + 1);
      OneMore(pubs[i], filled, missing, pubs[i + 1..]);
      WhereStep(pubs, tx, true, i);
      WhereStep(pubs, tx, false, i);
      SliceFirst(pubs, i);
    }
  }

  /** The filled and the missing signers are together the declared ones. */
  lemma SignersSplit(tx: Tx)
    ensures multiset(GetFilledSigners(tx)) + multiset(GetMissingSigners(tx)) == multiset(ReadSignerPubKeys(tx.cmd))
  {
    var pubs := ReadSignerPubKeys(tx.cmd);
    WhereSplit(pubs, tx, 0);
    assert pubs[0..] == pubs;
  }

  // ---------- Signing by one party ----------

  /** The keypair signs for the key it declares. */
  predicate Honest(kp: Keypair) {
    && PubOf(kp).Pub?
    && if IsChainweaver(kp)
       then kp.encryptedSecretKey.value.password == kp.password.value
            && Pub(kp.encryptedSecretKey.value.seed) == PubOf(kp)
       else Pub(kp.secretKey) == PubOf(kp)
  }

  predicate AllHonest(kps: seq<Keypair>) {
    forall kp <- kps :: Honest(kp)
  }

  function KeysOf(kps: seq<Keypair>): set<Term> {
    set kp | kp in kps :: PubOf(kp)
  }

  /** The signature that verifies for a key: Ed25519 signatures are deterministic (section 5.1.6 of RFC 8032). */
  function ValidSig(pub: Term, hash: Term): Term {
    Sig(if pub.Pub? then pub.seed else EMPTY, pub, hash)
  }

  predicate Verifies(pub: Term, hash: Term, sig: Term) {
    sig.Sig? && sig.pub == pub && pub == Pub(sig.secret) && sig.hash == hash
  }

  function SignPartial(tx: Tx, kps: seq<Keypair>): Result<Tx, SignError>
    requires tx.cmd.Text? ==> Covered(tx.cmd)
  {
    Signed(tx, kps, None)
  }

  /** Every slot that is filled is the one found under its signer's key, and no signature hides elsewhere. */
  predicate Tidy(tx: Tx)
    requires Covered(tx.cmd)
  {
    && |tx.sigs| == |Signers(tx.cmd)|
    && forall i :: 0 <= i < |tx.sigs| ==>
      match Existing(tx.sigs, Signers(tx.cmd)[i])
      case Some(e) => tx.sigs[i] == e
      case None => !Filled(tx.sigs[i])
  }

  /** The signature in a slot. */
  function SigIn(s: Slot): Option<Term> {
    if Filled(s) then s.sig else None
  }

  /** What a slot holds after parties holding `keys` have signed. */
  function SigAfter(s: Slot, signer: Term, keys: set<Term>, hash: Term): Option<Term>
  {
    if Filled(s) then s.sig
    else if signer in keys then Some(ValidSig(signer, hash))
    else None
  }

  lemma {:induction false} WalletSignaturesHonest(kps: seq<Keypair>, hash: Term)
    requires AllHonest(kps) && forall kp <- kps :: IsChainweaver(kp)
    ensures WalletSignatures(kps, hash).Ok?
  {
    if kps != [] {
      assert kps[0] in kps;
      WalletSignaturesHonest(kps[1..], hash);
    }
  }

  /** The signatures of honest keypairs: exactly the declared keys among theirs, each with its valid signature. */
  lemma HonestSignatures(tx: Tx, kps: seq<Keypair>)
    requires Covered(tx.cmd) && AllHonest(kps)
    ensures AllSignatures(tx, kps, None).Ok?
    ensures var ss := AllSignatures(tx, kps, None).value;
      && (forall s <- ss :: s.pub in KeysOf(kps) && s.pub.Pub? && s.sig == ValidSig(s.pub, tx.hash))
      && (forall k <- KeysOf(kps) :: k in Signers(tx.cmd) ==> exists s :: s in ss && s.pub == k)
  {
    var signers := Signers(tx.cmd);
    WalletSignaturesHonest(ChainweaverPairs(kps, signers), tx.hash);
    SignaturesExact(tx, kps, None);
    var ss := AllSignatures(tx, kps, None).value;
    forall s: Signature | s in ss ensures s.pub in KeysOf(kps) && s.pub.Pub? && s.sig == ValidSig(s.pub, tx.hash) {
      assert FromKeypair(s, kps, signers, tx.hash);
      var kp :| kp in kps && PubOf(kp) in signers && s == SignatureBy(kp, tx.hash);
      assert Honest(kp);
    }
    forall k | k in KeysOf(kps) && k in signers ensures exists s :: s in ss && s.pub == k {
      var kp :| kp in kps && PubOf(kp) == k;
      assert SignatureBy(kp, tx.hash) in ss;
    }
  }

  /** A pass by one party keeps the command and the hash, keeps every filled slot as it is, and fills exactly the
      empty slots of the party's keys, with valid signatures. */
  lemma OnePass(tx: Tx, kps: seq<Keypair>)
    requires Covered(tx.cmd) && Tidy(tx) && AllHonest(kps)
    ensures SignPartial(tx, kps).Ok?
    ensures var t := SignPartial(tx, kps).value;
      && t.cmd == tx.cmd && t.hash == tx.hash && |t.sigs| == |tx.sigs| && Tidy(t)
      && forall i :: 0 <= i < |tx.sigs| ==>
        && (Filled(tx.sigs[i]) ==> t.sigs[i] == tx.sigs[i])
        && SigIn(t.sigs[i]) == SigAfter(tx.sigs[i], Signers(tx.cmd)[i], KeysOf(kps), tx.hash)
  {
    HonestSignatures(tx, kps);
    var ss := AllSignatures(tx, kps, None).value;
    var signers := Signers(tx.cmd);
    var t := Merged(tx, ss);
    forall i | 0 <= i < |signers|
      ensures SigIn(t.sigs[i]) == SigAfter(tx.sigs[i], signers[i], KeysOf(kps), tx.hash)
      ensures Filled(tx.sigs[i]) ==> t.sigs[i] == tx.sigs[i]
    {
      SignatureForIff(ss, signers[i]);
    }
    if ss != [] {
      MergedIsTidy(tx, ss);
    }
  }

  /** A successful pass produces no signature exactly when it has no keypair of a declared signer. */
  lemma NoSignatureIff(tx: Tx, kps: seq<Keypair>)
    requires Covered(tx.cmd) && AllSignatures(tx, kps, None).Ok?
    ensures AllSignatures(tx, kps, None).value == [] <==> forall kp <- kps :: PubOf(kp) !in Signers(tx.cmd)
  {
    SignaturesExact(tx, kps, None);
    var ss := AllSignatures(tx, kps, None).value;
    if ss != [] {
      assert FromKeypair(ss[0], kps, Signers(tx.cmd), tx.hash);
    }
  }

  /** A pass by one party, with any keypairs, leaves a filled slot as it is exactly when none of them is declared, or
      the slot is the first entry found under its signer's key, or, no filled one being found there, the slot already
      is the entry that the party makes with its keypair for that key. */
  lemma PassKeepsSlotIff(tx: Tx, kps: seq<Keypair>, i: nat)
    requires Covered(tx.cmd) && i < |Signers(tx.cmd)| && i < |tx.sigs| && Filled(tx.sigs[i])
    requires SignPartial(tx, kps).Ok?
    ensures i < |SignPartial(tx, kps).value.sigs|
    ensures var key := Signers(tx.cmd)[i];
      SignPartial(tx, kps).value.sigs[i] == tx.sigs[i] <==>
        || (forall kp <- kps :: PubOf(kp) !in Signers(tx.cmd))
        || FindKeyed(tx.sigs, key) == Some(tx.sigs[i])
        || (Existing(tx.sigs, key).None? && KeypairOf(kps, key).Some?
            && tx.sigs[i] == Slot(Some(key), Some(SignatureBy(KeypairOf(kps, key).value, tx.hash).sig)))
  {
    NoSignatureIff(tx, kps);
    SignatureOfKeypair(tx, kps, Signers(tx.cmd)[i]);
    MergeKeepsSlotIff(tx, AllSignatures(tx, kps, None).value, i);
  }

  /** With honest keypairs the last case is that the slot holds the valid signature of a signer who signs again. */
  lemma HonestPassKeepsSlotIff(tx: Tx, kps: seq<Keypair>, i: nat)
    requires Covered(tx.cmd) && i < |Signers(tx.cmd)| && i < |tx.sigs| && Filled(tx.sigs[i])
    requires AllHonest(kps)
    ensures SignPartial(tx, kps).Ok? && i < |SignPartial(tx, kps).value.sigs|
    ensures var key := Signers(tx.cmd)[i];
      SignPartial(tx, kps).value.sigs[i] == tx.sigs[i] <==>
        || (forall kp <- kps :: PubOf(kp) !in Signers(tx.cmd))
        || FindKeyed(tx.sigs, key) == Some(tx.sigs[i])
        || (Existing(tx.sigs, key).None? && key in KeysOf(kps)
            && tx.sigs[i] == Slot(Some(key), Some(ValidSig(key, tx.hash))))
  {
    var key := Signers(tx.cmd)[i];
    HonestSignatures(tx, kps);
    PassKeepsSlotIff(tx, kps, i);
    KeypairOfExact(kps, key);
    if key in KeysOf(kps) {
      var kp := KeypairOf(kps, key).value;
      assert Honest(kp);
    }
  }

  function SignerJson(pub: Term): Json {
    Obj(map["pubKey" := Str(pub)])
  }

  /** A command with two signers. */
  function TwoSigners(a: Term, b: Term): Term {
    Text(Obj(map["signers" := Arr([SignerJson(a), SignerJson(b)])]))
  }

  lemma {:induction false} NoneKeyed(sigs: seq<Slot>, key: Term)
    requires forall s <- sigs :: s.Slot? ==> s.pubKey != Some(key)
    ensures FindKeyed(sigs, key).None?
  {
    if sigs != [] {
      NoneKeyed(sigs[1..], key);
    }
  }

  /** The first signer's valid signature without its `pubKey`, and nothing in the second slot. */
  function HalfSigned(secretA: Term, secretB: Term): Tx {
    var cmd := TwoSigners(Pub(secretA), Pub(secretB));
    var hash := KadenaHash(cmd);
    Tx(cmd, hash, [Slot(None, Some(ValidSig(Pub(secretA), hash))), Vacant])
  }

  lemma HalfSignedSigners(secretA: Term, secretB: Term)
    ensures var cmd := HalfSigned(secretA, secretB).cmd;
      Covered(cmd) && Signers(cmd) == ReadSignerPubKeys(cmd) == [Pub(secretA), Pub(secretB)]
  {
    var cmd := HalfSigned(secretA, secretB).cmd;
    assert Field(cmd.json, "signers") == Some(Arr([SignerJson(Pub(secretA)), SignerJson(Pub(secretB))]));
    assert Signers(cmd) == [Pub(secretA), Pub(secretB)];
    ReadersAgree(cmd);
  }

  /** A valid signature that came without its `pubKey` is lost as soon as the other party signs. */
  lemma UnkeyedSignatureLost(secretA: Term, secretB: Term)
    requires secretA != secretB
    ensures var tx := HalfSigned(secretA, secretB);
      var kps := [Keypair(Some(Pub(secretB)), secretB, Koala, None, None)];
      && Covered(tx.cmd) && AllHonest(kps)
      && SlotFilled(tx, 0) && SlotProblem(tx, ReadSignerPubKeys(tx.cmd), 0).None?
      && SignPartial(tx, kps).Ok? && !SlotFilled(SignPartial(tx, kps).value, 0)
  {
    var a, b := Pub(secretA), Pub(secretB);
    var tx := HalfSigned(secretA, secretB);
    var kps := [Keypair(Some(b), secretB, Koala, None, None)];
    HalfSignedSigners(secretA, secretB);
    assert KeysOf(kps) == {b} by {
      assert kps[0] in kps;
    }
    HonestSignatures(tx, kps);
    var ss := AllSignatures(tx, kps, None).value;
    SignatureForIff(ss, a);
    NoneKeyed(tx.sigs, a);
    assert b in KeysOf(kps) && b in Signers(tx.cmd);
    assert ss != [];
  }

  lemma {:induction false} FindMerged(sigs: seq<Slot>, signers: seq<Term>, ss: seq<Signature>, key: Term)
    requires key in signers
    ensures FindKeyed(MergedSlots(sigs, signers, ss), key) == Some(MergedSlot(sigs, key, ss))
  {
    FindHasKey(sigs, signers[0]);
    if signers[0] != key {
      FindMerged(sigs, signers[1..], ss, key);
      assert MergedSlots(sigs, signers, ss)[1..] == MergedSlots(sigs, signers[1..], ss);
    }
  }

  /** Whatever it is given, signing leaves the slots tidy. */
  lemma MergedIsTidy(tx: Tx, ss: seq<Signature>)
    requires Covered(tx.cmd) && ss != []
    ensures Tidy(Merged(tx, ss))
  {
    var signers := Signers(tx.cmd);
    forall i | 0 <= i < |signers|
      ensures FindKeyed(Merged(tx, ss).sigs, signers[i]) == Some(Merged(tx, ss).sigs[i])
    {
      FindMerged(tx.sigs, signers, ss, signers[i]);
    }
  }

  // ---------- The envelope ----------

  function SlotJson(s: Slot): Json {
    match s
    case Vacant => Null
    case Slot(pub, sig) =>
      Obj((if pub.Some? then map["pubKey" := Str(pub.value)] else map[])
          + (if sig.Some? then map["sig" := Str(sig.value)] else map[]))
  }

  function StringField(j: Json, name: string): Option<Term> {
    var f := Field(j, name);
    if f.Some? && f.value.Str? then Some(f.value.t) else None
  }

  /** What the slot queries and the signer lookup can see of an imported slot. */
  function SlotOf(j: Json): Slot {
    if j.Obj? then Slot(StringField(j, "pubKey"), StringField(j, "sig")) else Vacant
  }

  function SlotsJson(sigs: seq<Slot>): seq<Json> {
    if sigs == [] then [] else [SlotJson(sigs[0])] + SlotsJson(sigs[1..])
  }

  function SlotsOf(items: seq<Json>): seq<Slot> {
    if items == [] then [] else [SlotOf(items[0])] + SlotsOf(items[1..])
  }

  function TransactionJson(tx: Tx): Json {
    Obj(map["cmd" := Str(tx.cmd), "hash" := Str(tx.hash), "sigs" := Arr(SlotsJson(tx.sigs))])
  }

  function SerializePartialTransaction(tx: Tx, metadata: Option<Json>): Term {
    Text(Obj(map["format" := Str(FORMAT), "version" := Num(VERSION), "transaction" := TransactionJson(tx)]
             + (if metadata.Some? then map["metadata" := metadata.value] else map[])))
  }

  datatype ImportError =
    | NotJsonText | NotAnObject | BadFormat | BadVersion | BadTransaction | BadCmd | BadHash | BadSigs
    | TamperedHash(expected: Term, actual: Term)

  function DeserializePartialTransaction(text: Term): Result<Tx, ImportError> {
    var parsed := Parse(text);
    if parsed.None? then Err(NotJsonText)
    else if !parsed.value.Obj? then Err(NotAnObject)
    else if Field(parsed.value, "format") != Some(Str(FORMAT)) then Err(BadFormat)
    else if Field(parsed.value, "version") != Some(Num(VERSION)) then Err(BadVersion)
    else
      var tx := Field(parsed.value, "transaction");
      if tx.None? || !tx.value.Obj? then Err(BadTransaction)
      else if StringField(tx.value, "cmd").None? then Err(BadCmd)
      else if StringField(tx.value, "hash").None? then Err(BadHash)
      else if Field(tx.value, "sigs").None? || !Field(tx.value, "sigs").value.Arr? then Err(BadSigs)
      else
        var cmd, hash := StringField(tx.value, "cmd").value, StringField(tx.value, "hash").value;
        var recomputed := KadenaHash(cmd);
        if recomputed != hash then Err(TamperedHash(hash, recomputed))
        else Ok(Tx(cmd, hash, SlotsOf(Field(tx.value, "sigs").value.items)))
  }

  lemma {:induction false} SlotsRoundTrip(sigs: seq<Slot>)
    ensures SlotsOf(SlotsJson(sigs)) == sigs
  {
    if sigs != [] {
      SlotsRoundTrip(sigs[1..]);
      assert SlotOf(SlotJson(sigs[0])) == sigs[0];
    }
  }

  /** Importing an export gives back the command, the hash and every slot, whatever the metadata, exactly when the
      hash matches the command; otherwise the import names both hashes. */
  lemma ImportOfExport(tx: Tx, metadata: Option<Json>)
    ensures DeserializePartialTransaction(SerializePartialTransaction(tx, metadata)) ==
      if tx.hash == KadenaHash(tx.cmd) then Ok(tx) else Err(TamperedHash(tx.hash, KadenaHash(tx.cmd)))
  {
    SlotsRoundTrip(tx.sigs);
    var env := SerializePartialTransaction(tx, metadata).json;
    assert env.fields["transaction"].fields["sigs"] == Arr(SlotsJson(tx.sigs));
  }

  // ---------- Verifying existing signatures ----------

  datatype Reason = HashNotBase64 | NotDeclared(index: nat) | NotHex | KeyRefused | BadSignature

  datatype Report = Report(publicKey: Term, reason: Reason)

  predicate HexDigit(c: char) {
    '0' <= c <= '9' || 'a' <= c <= 'f' || 'A' <= c <= 'F'
  }

  predicate HexSignature(sig: Term) {
    sig.Sig? || (sig.Lit? && |sig.text| == 128 && forall c <- sig.text :: HexDigit(c))
  }

  /** The number of bytes `Buffer.from(text, "hex")` reads before it stops. */
  function HexBytes(text: string): nat {
    if |text| >= 2 && HexDigit(text[0]) && HexDigit(text[1]) then 1 + HexBytes(text[2..]) else 0
  }

  /** Ed25519 verification refuses a key that is not 32 bytes long. */
  predicate KeyAccepted(pub: Term) {
    pub.Pub? || (pub.Lit? && HexBytes(pub.text) == 32)
  }

  predicate HashDecodes(hash: Term) {
    hash.Lit? ==> !Base64Url.Rejected(hash.text)
  }

  function SlotProblem(tx: Tx, pubs: seq<Term>, i: nat): Option<Report>
    requires i < |tx.sigs|
  {
    var slot := tx.sigs[i];
    if !Filled(slot) then None
    else if i >= |pubs| || pubs[i] == EMPTY then Some(Report(EMPTY, NotDeclared(i)))
    else if !HexSignature(slot.sig.value) then Some(Report(pubs[i], NotHex))
    else if !KeyAccepted(pubs[i]) then Some(Report(pubs[i], KeyRefused))
    else if !Verifies(pubs[i], tx.hash, slot.sig.value) then Some(Report(pubs[i], BadSignature))
    else None
  }

  /** A filled slot is reported exactly when it does not hold a signature of the transaction's hash by the signer
      declared at its index. */
  lemma ProblemIffNotVerifying(tx: Tx, pubs: seq<Term>, i: nat)
    requires i < |tx.sigs|
    ensures SlotProblem(tx, pubs, i).Some? <==>
      Filled(tx.sigs[i]) && !(i < |pubs| && Verifies(pubs[i], tx.hash, tx.sigs[i].sig.value))
  {
  }

  function ProblemIndices(tx: Tx, pubs: seq<Term>, i: nat): seq<nat>
    requires i <= |tx.sigs|
    decreases |tx.sigs| - i
  {
    if i == |tx.sigs| then []
    else (if SlotProblem(tx, pubs, i).Some? then [i] else []) + ProblemIndices(tx, pubs, i + 1)
  }

  /** The failing slots, each once and in index order. */
  lemma {:induction false} ProblemIndicesExact(tx: Tx, pubs: seq<Term>, i: nat)
    requires i <= |tx.sigs|
    ensures var ks := ProblemIndices(tx, pubs, i);
      && (forall a, b :: 0 <= a < b < |ks| ==> ks[a] < ks[b])
      && (forall k :: k in ks <==> i <= k < |tx.sigs| && SlotProblem(tx, pubs, k).Some?)
    decreases |tx.sigs| - i
  {
    if i < |tx.sigs| {
      ProblemIndicesExact(tx, pubs, i + 1);
      var rest := ProblemIndices(tx, pubs, i + 1);
      assert forall k <- rest :: i < k;
      assert forall b :: 0 <= b < |rest| ==> rest[b] in rest;
    }
  }

  /** The report holds one entry per failing slot, in index order. */
  method VerifyExistingSignatures(tx: Tx) returns (allValid: bool, invalid: seq<Report>)
    ensures allValid <==> invalid == []
    ensures !HashDecodes(tx.hash) ==> invalid == [Report(EMPTY, HashNotBase64)]
    ensures HashDecodes(tx.hash) ==>
      var pubs := ReadSignerPubKeys(tx.cmd); var ks := ProblemIndices(tx, pubs, 0);
      && |invalid| == |ks|
      && forall a :: 0 <= a < |ks| ==> ks[a] < |tx.sigs| && SlotProblem(tx, pubs, ks[a]) == Some(invalid[a])
  {
    invalid := [];
    var pubs := ReadSignerPubKeys(tx.cmd);
    if !HashDecodes(tx.hash) {
      return false, [Report(EMPTY, HashNotBase64)];
    }
    ghost var found: seq<nat> := [];
    for i := 0 to |tx.sigs|
      invariant found + ProblemIndices(tx, pubs, i) == ProblemIndices(tx, pubs, 0)
      invariant |invalid| == |found|
      invariant forall a :: 0 <= a < |found| ==> found[a] < i && SlotProblem(tx, pubs, found[a]) == Some(invalid[a])
    {
      ghost var before := found;
      found := found + (if SlotProblem(tx, pubs, i).Some? then [i] else []);
      assert found + ProblemIndices(tx, pubs, i + 1) == before + ProblemIndices(tx, pubs, i);
      var slot := tx.sigs[i];
      if !Filled(slot) { continue; }
      if i >= |pubs| || pubs[i] == EMPTY {
        invalid := invalid + [Report(EMPTY, NotDeclared(i))];
        continue;
      }
      if !HexSignature(slot.sig.value) {
        invalid := invalid + [Report(pubs[i], NotHex)];
        continue;
      }
      if !KeyAccepted(pubs[i]) {
        invalid := invalid + [Report(pubs[i], KeyRefused)];
        continue;
      }
      if !Verifies(pubs[i], tx.hash, slot.sig.value) {
        invalid := invalid + [Report(pubs[i], BadSignature)];
      }
    }
    assert found == ProblemIndices(tx, pubs, 0);
    allValid := |invalid| == 0;
  }

  /** A command replaced in transit together with its hash passes the import, but then every slot whose signature
      verified before is reported. */
  lemma RewrittenCommandIsReported(tx: Tx, cmd': Term, i: nat)
    requires tx.hash == KadenaHash(tx.cmd) && cmd' != tx.cmd
    requires i < |tx.sigs| && Filled(tx.sigs[i])
    requires i < |ReadSignerPubKeys(tx.cmd)| && Verifies(ReadSignerPubKeys(tx.cmd)[i], tx.hash, tx.sigs[i].sig.value)
    ensures var t := Tx(cmd', KadenaHash(cmd'), tx.sigs);
      && DeserializePartialTransaction(SerializePartialTransaction(t, None)) == Ok(t)
      && HashDecodes(t.hash)
      && i in ProblemIndices(t, ReadSignerPubKeys(cmd'), 0)
  {
    var t := Tx(cmd', KadenaHash(cmd'), tx.sigs);
    ImportOfExport(t, None);
    ProblemIndicesExact(t, ReadSignerPubKeys(cmd'), 0);
    ProblemIffNotVerifying(t, ReadSignerPubKeys(cmd'), i);
  }

  // ---------- The hand-off protocol ----------

  /** One party signs with the keys it holds, or one party exports the transaction and the next imports it. */
  datatype PartyStep = SignWith(kps: seq<Keypair>) | HandOver(metadata: Option<Json>)

  function Do(tx: Tx, step: PartyStep): Option<Tx> {
    match step
    case SignWith(kps) =>
      if !Covered(tx.cmd) then None
      else
        var r := SignPartial(tx, kps);
        if r.Ok? then Some(r.value) else None
    case HandOver(metadata) =>
      var r := DeserializePartialTransaction(SerializePartialTransaction(tx, metadata));
      if r.Ok? then Some(r.value) else None
  }

  function DoAll(tx: Tx, steps: seq<PartyStep>): Option<Tx> {
    if steps == [] then Some(tx)
    else
      var before := DoAll(tx, steps[..|steps| - 1]);
      if before.None? then None else Do(before.value, steps[|steps| - 1])
  }

  function AllKeys(steps: seq<PartyStep>): set<Term> {
    if steps == [] then {}
    else
      AllKeys(steps[..|steps| - 1])
      + (match steps[|steps| - 1] case SignWith(kps) => KeysOf(kps) case HandOver(_) => {})
  }

  ghost predicate HonestSteps(steps: seq<PartyStep>) {
    forall s <- steps :: s.SignWith? ==> AllHonest(s.kps)
  }

  /** What a transaction has become of another after parties holding `keys` have signed: the command and the hash
      are the same, filled slots are exactly as they were, and a slot holds a signature exactly if it held one
      before or its signer's key is among the keys. */
  ghost predicate Progress(tx: Tx, t: Tx, keys: set<Term>)
    requires Covered(tx.cmd)
  {
    && t.cmd == tx.cmd && t.hash == tx.hash && |t.sigs| == |tx.sigs| == |Signers(tx.cmd)| && Tidy(t)
    && (forall i :: 0 <= i < |tx.sigs| ==> Filled(tx.sigs[i]) ==> t.sigs[i] == tx.sigs[i])
    && (forall i :: 0 <= i < |tx.sigs| ==>
         SigIn(t.sigs[i]) == SigAfter(tx.sigs[i], Signers(tx.cmd)[i], keys, tx.hash))
  }

  lemma ProgressPass(tx: Tx, mid: Tx, keys: set<Term>, kps: seq<Keypair>)
    requires Covered(tx.cmd) && Progress(tx, mid, keys) && AllHonest(kps)
    ensures SignPartial(mid, kps).Ok? && Progress(tx, SignPartial(mid, kps).value, keys + KeysOf(kps))
  {
    OnePass(mid, kps);
    var t := SignPartial(mid, kps).value;
    forall i | 0 <= i < |tx.sigs|
      ensures SigIn(t.sigs[i]) == SigAfter(tx.sigs[i], Signers(tx.cmd)[i], keys + KeysOf(kps), tx.hash)
    {
      assert SigIn(mid.sigs[i]) == SigAfter(tx.sigs[i], Signers(tx.cmd)[i], keys, tx.hash);
      assert SigIn(t.sigs[i]) == SigAfter(mid.sigs[i], Signers(tx.cmd)[i], KeysOf(kps), tx.hash);
    }
  }

  /** For any number of parties and any sequence of partial signings and hand-offs no step fails, and the outcome
      depends only on the transaction and on the keys of all the parties together. */
  lemma {:induction false} ProtocolOutcome(tx: Tx, steps: seq<PartyStep>)
    requires Covered(tx.cmd) && Tidy(tx) && tx.hash == KadenaHash(tx.cmd) && HonestSteps(steps)
    ensures DoAll(tx, steps).Some?
    ensures Progress(tx, DoAll(tx, steps).value, AllKeys(steps))
  {
    if steps != [] {
      var front := steps[..|steps| - 1];
      ProtocolOutcome(tx, front);
      var mid := DoAll(tx, front).value;
      match steps[|steps| - 1]
      case SignWith(kps) =>
        assert steps[|steps| - 1] in steps;
        ProgressPass(tx, mid, AllKeys(front), kps);
      case HandOver(metadata) =>
        ImportOfExport(mid, metadata);
        assert AllKeys(steps) == AllKeys(front);
    }
  }

  /** Two sequences of steps by parties with the same keys altogether end with the same signatures, whatever their
      order, number and hand-offs. */
  lemma PartyOrderIrrelevant(tx: Tx, steps: seq<PartyStep>, steps': seq<PartyStep>)
    requires Covered(tx.cmd) && Tidy(tx) && tx.hash == KadenaHash(tx.cmd) && HonestSteps(steps) && HonestSteps(steps')
    requires AllKeys(steps) == AllKeys(steps')
    ensures var t, t' := DoAll(tx, steps), DoAll(tx, steps');
      && t.Some? && t'.Some? && t.value.cmd == t'.value.cmd && t.value.hash == t'.value.hash
      && |t.value.sigs| == |t'.value.sigs|
      && forall i :: 0 <= i < |t.value.sigs| ==> SigIn(t.value.sigs[i]) == SigIn(t'.value.sigs[i])
  {
    ProtocolOutcome(tx, steps);
    ProtocolOutcome(tx, steps');
  }

  /** The transaction ends fully signed exactly when every declared signer had signed already or is among the
      parties' keys. */
  lemma FullySignedIffCovered(tx: Tx, steps: seq<PartyStep>)
    requires Covered(tx.cmd) && Tidy(tx) && tx.hash == KadenaHash(tx.cmd) && HonestSteps(steps)
    ensures DoAll(tx, steps).Some?
    ensures IsFullySigned(DoAll(tx, steps).value) <==>
      forall i :: 0 <= i < |Signers(tx.cmd)| ==> Filled(tx.sigs[i]) || Signers(tx.cmd)[i] in AllKeys(steps)
  {
    ProtocolOutcome(tx, steps);
    ReadersAgree(tx.cmd);
    var t := DoAll(tx, steps).value;
    forall i | 0 <= i < |Signers(tx.cmd)|
      ensures SlotFilled(t, i) <==> Filled(tx.sigs[i]) || Signers(tx.cmd)[i] in AllKeys(steps)
    {
      assert SigIn(t.sigs[i]) == SigAfter(tx.sigs[i], Signers(tx.cmd)[i], AllKeys(steps), tx.hash);
    }
  }

  lemma {:induction false} KeysAreKeys(steps: seq<PartyStep>)
    requires HonestSteps(steps)
    ensures forall k <- AllKeys(steps) :: k.Pub?
  {
    if steps != [] {
      assert steps[|steps| - 1] in steps;
      KeysAreKeys(steps[..|steps| - 1]);
    }
  }

  /** If every signature verified at the start, every signature verifies after any sequence of steps. */
  lemma EverySignatureVerifies(tx: Tx, steps: seq<PartyStep>, i: nat)
    requires Covered(tx.cmd) && Tidy(tx) && tx.hash == KadenaHash(tx.cmd) && HonestSteps(steps)
    requires forall k :: 0 <= k < |tx.sigs| ==> SlotProblem(tx, ReadSignerPubKeys(tx.cmd), k).None?
    requires i < |tx.sigs|
    ensures DoAll(tx, steps).Some? && |DoAll(tx, steps).value.sigs| == |tx.sigs|
    ensures SlotProblem(DoAll(tx, steps).value, ReadSignerPubKeys(tx.cmd), i).None?
  {
    ProtocolOutcome(tx, steps);
    KeysAreKeys(steps);
    ReadersAgree(tx.cmd);
    assert SlotProblem(tx, ReadSignerPubKeys(tx.cmd), i).None?;
  }

  /** A transaction as it is created, with one empty entry per signer, meets what the protocol starts from. */
  lemma {:induction false} CreatedIsTidy(tx: Tx)
    requires Covered(tx.cmd) && |tx.sigs| == |Signers(tx.cmd)|
    requires forall i :: 0 <= i < |tx.sigs| ==> tx.sigs[i] == Vacant
    ensures Tidy(tx)
  {
    forall key ensures Existing(tx.sigs, key).None? {
      NoneFound(tx.sigs, key);
    }
  }

  lemma {:induction false} NoneFound(sigs: seq<Slot>, key: Term)
    requires forall i :: 0 <= i < |sigs| ==> !Filled(sigs[i])
    ensures Existing(sigs, key).None?
  {
    if sigs != [] {
      NoneFound(sigs[1..], key);
    }
  }
}
