/** Which secret signs for a keypair, by its fields, and what aborts a signing pass. */
module SeedRouting {
  import opened Wrappers
  import opened Seqs
  import opened Terms
  import opened UniversalSign
  import opened PartialSig

  /** The keypair is the only one of its key, its key is declared at the index, and no entry is found there yet. */
  ghost predicate SignsSlot(tx: Tx, kps: seq<Keypair>, kp: Keypair, i: nat)
    requires Covered(tx.cmd)
  {
    && kp in kps && i < |Signers(tx.cmd)| && kp.publicKey == Some(Signers(tx.cmd)[i])
    && (forall k <- kps :: PubOf(k) == PubOf(kp) ==> k == kp)
    && Existing(tx.sigs, Signers(tx.cmd)[i]).None?
  }

  /** What the keypair's slot holds after a successful pass. */
  lemma SlotOfKeypair(tx: Tx, kps: seq<Keypair>, kp: Keypair, i: nat)
    requires Covered(tx.cmd) && SignsSlot(tx, kps, kp, i) && Signed(tx, kps, None).Ok?
    ensures i < |Signed(tx, kps, None).value.sigs|
    ensures Signed(tx, kps, None).value.sigs[i]
         == Slot(Some(Signers(tx.cmd)[i]), Some(SignatureBy(kp, tx.hash).sig))
  {
    NoSignatureIff(tx, kps);
    SignatureOfKeypair(tx, kps, Signers(tx.cmd)[i]);
    KeypairOfExact(kps, Signers(tx.cmd)[i]);
  }

  /** A chainweaver or eckowallet keypair with an encrypted secret and a password that opens it signs with that secret,
      whatever its plain secret key is. */
  lemma WalletSeedSigns(tx: Tx, kps: seq<Keypair>, kp: Keypair, i: nat, seed: Term, password: Term)
    requires Covered(tx.cmd) && SignsSlot(tx, kps, kp, i) && Signed(tx, kps, None).Ok?
    requires kp.seedType == Chainweaver || kp.seedType == Eckowallet
    requires kp.encryptedSecretKey == Some(EncryptedKey(seed, password)) && kp.password == Some(password)
    requires password != EMPTY
    ensures i < |Signed(tx, kps, None).value.sigs|
    ensures Signed(tx, kps, None).value.sigs[i].Slot?
    ensures Signed(tx, kps, None).value.sigs[i].sig == Some(Sig(seed, Pub(seed), tx.hash))
  {
    SlotOfKeypair(tx, kps, kp, i);
  }

  /** Any other keypair, by its seed type or for want of the encrypted secret or of a password, signs with its plain
      secret key. */
  lemma PlainSecretSigns(tx: Tx, kps: seq<Keypair>, kp: Keypair, i: nat)
    requires Covered(tx.cmd) && SignsSlot(tx, kps, kp, i) && Signed(tx, kps, None).Ok?
    requires kp.seedType == Koala || kp.seedType == Foreign || kp.seedType == Unspecified
      || kp.encryptedSecretKey == None || kp.password == None || kp.password == Some(EMPTY)
    ensures i < |Signed(tx, kps, None).value.sigs|
    ensures Signed(tx, kps, None).value.sigs[i].Slot?
    ensures Signed(tx, kps, None).value.sigs[i].sig == Some(Sig(kp.secretKey, Signers(tx.cmd)[i], tx.hash))
  {
    SlotOfKeypair(tx, kps, kp, i);
  }

  /** Whether the wallet passwords open their secrets decides whether a pass without a callback succeeds. */
  lemma WrongPasswordAborts(tx: Tx, kps: seq<Keypair>)
    requires Covered(tx.cmd)
    ensures Signed(tx, kps, None).Ok? <==>
      forall kp <- kps ::
        PubOf(kp) in Signers(tx.cmd) && (kp.seedType == Chainweaver || kp.seedType == Eckowallet)
        && kp.encryptedSecretKey.Some? && kp.password.Some? && kp.password.value != EMPTY ==>
          kp.encryptedSecretKey.value.password == kp.password.value
  {
    var wallets := ChainweaverPairs(kps, Signers(tx.cmd));
    WalletsOpen(wallets, tx.hash);
  }

  lemma {:induction false} WalletsOpen(kps: seq<Keypair>, hash: Term)
    requires forall kp <- kps :: IsChainweaver(kp)
    ensures WalletSignatures(kps, hash).Ok? <==>
      forall kp <- kps :: kp.encryptedSecretKey.value.password == kp.password.value
    ensures WalletSignatures(kps, hash).Err? ==> WalletSignatures(kps, hash).error.WrongPassword?
  {
    if kps != [] {
      WalletsOpen(kps[1..], hash);
      assert kps == [kps[0]] + kps[1..];
    }
  }

  // ---------- Answers of the callback ----------

  /** The answer that is no use for the key: none at all, a literal that does not have 64 characters, or the secret of
      another key. */
  predicate Useless(cb: Callback, k: Term) {
    match cb(k)
    case None => true
    case Some(raw) => (raw.Lit? && |raw.text| != 64) || Pub(raw) != k
  }

  /** The pass stops exactly when some unhandled signer's answer is useless; the signer it stops at is the last one
      asked, and the error says in which way its answer is useless. */
  lemma {:induction false} AskStopsIff(signers: seq<Term>, handled: set<Term>, cb: Callback)
    ensures var a := Ask(signers, handled, cb);
      && (a.error.Some? <==> exists k <- signers :: k !in handled && Useless(cb, k))
      && (a.error.Some? ==>
        && a.keys != [] && Useless(cb, a.keys[|a.keys| - 1])
        && a.error.value == ErrorFor(cb, a.keys[|a.keys| - 1]))
    decreases |signers|
  {
    if signers != [] {
      var k := signers[0];
      assert signers == [k] + signers[1..];
      if k in handled || !Useless(cb, k) {
        AskStopsIff(signers[1..], if k in handled then handled else handled + {k}, cb);
      }
    }
  }

  function ErrorFor(cb: Callback, k: Term): SignError {
    match cb(k)
    case None => CallbackRejected(k)
    case Some(raw) => if raw.Lit? && |raw.text| != 64 then BadSeed(k) else KeyMismatch(k, Pub(raw))
  }

  /** A declared signer without a keypair whose answer is useless aborts the pass: nothing is signed. */
  lemma UselessAnswerAborts(tx: Tx, kps: seq<Keypair>, cb: Callback, k: Term)
    requires Covered(tx.cmd) && k in Signers(tx.cmd) && k !in KeysOf(kps) && Useless(cb, k)
    ensures Signed(tx, kps, Some(cb)).Err?
  {
    AskStopsIff(Signers(tx.cmd), Handled(kps, Signers(tx.cmd)), cb);
  }
}
