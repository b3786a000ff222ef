/** What is submitted: which slots are filled, which signatures verify, who is asked, and when nothing is sent. */
module CodexOutcome {
  import opened Wrappers
  import opened Seqs
  import opened Terms
  import opened Guards
  import opened UniversalSign
  import opened PartialSig
  import opened CodexStrategy
  import Gas
  import NodeFailover
  import FailoverRuns

  // ---------- One pass ----------

  predicate OnePerPub(kps: seq<Keypair>) {
    forall a, b :: a in kps && b in kps && PubOf(a) == PubOf(b) ==> a == b
  }

  /** What a pass puts into an empty slot: the signature of the signer's keypair, or else one that verifies, made
      with the callback's answer. */
  lemma NewSignature(tx: Tx, kps: seq<Keypair>, cb: Option<Callback>, key: Term)
    requires Covered(tx.cmd) && AllSignatures(tx, kps, cb).Ok? && OnePerPub(kps) && key in Signers(tx.cmd)
    ensures var found := SignatureFor(AllSignatures(tx, kps, cb).value, key);
      && (forall kp <- kps :: PubOf(kp) == key ==> found == Some(SignatureBy(kp, tx.hash).sig))
      && (key !in KeysOf(kps) ==> (found.Some? <==> cb.Some?))
      && (key !in KeysOf(kps) && found.Some? ==> Verifies(key, tx.hash, found.value))
  {
    var signers, ss := Signers(tx.cmd), AllSignatures(tx, kps, cb).value;
    SignaturesExact(tx, kps, cb);
    assert forall s <- ss :: s.sig.Sig?;
    SignatureForIff(ss, key);
    if kp :| kp in kps && PubOf(kp) == key {
      assert SignatureBy(kp, tx.hash) in ss;
      var s := Signature(key, SignatureFor(ss, key).value);
      assert key in Handled(kps, signers);
      assert FromKeypair(s, kps, signers, tx.hash);
    } else if SignatureFor(ss, key).Some? {
      var s := Signature(key, SignatureFor(ss, key).value);
      assert FromAnswer(s, kps, signers, cb, tx.hash);
    } else {
      assert key !in Handled(kps, signers);
    }
  }

  predicate Unsigned(tx: Tx) {
    forall k :: 0 <= k < |tx.sigs| ==> !Filled(tx.sigs[k])
  }

  /** After a successful pass the slot of every signer that has a keypair, or can be asked for, is filled; in a
      transaction that had no signature no other slot is, and each holds its own signer's signature. */
  lemma SignedSlot(tx: Tx, kps: seq<Keypair>, cb: Option<Callback>, sent: Tx, i: nat)
    requires Covered(tx.cmd) && OnePerPub(kps) && Signed(tx, kps, cb) == Ok(sent)
    requires i < |Signers(tx.cmd)|
    ensures var signer := Signers(tx.cmd)[i];
      && (signer in KeysOf(kps) || cb.Some? ==> SlotFilled(sent, i))
      && (Unsigned(tx) && SlotFilled(sent, i) ==>
        && (signer in KeysOf(kps) || cb.Some?)
        && (forall kp <- kps :: PubOf(kp) == signer ==> sent.sigs[i].sig == Some(SignatureBy(kp, tx.hash).sig))
        && (signer !in KeysOf(kps) ==> Verifies(signer, tx.hash, sent.sigs[i].sig.value)))
  {
    var ss := AllSignatures(tx, kps, cb).value;
    var signer := Signers(tx.cmd)[i];
    NewSignature(tx, kps, cb, signer);
    if Unsigned(tx) {
      NoneFound(tx.sigs, signer);
    }
    if ss == [] {
      assert SignatureFor(ss, signer).None?;
    }
  }

  // ---------- The submitted transaction ----------

  /** Both builds see the same clock, price and signers, and the price is the floor at that very creation time; only
      the gas limit differs. */
  lemma OneClockRead(r: Resolver, q: Request, c: Chain)
    requires ValidRequest(q) && Executed(r, q, c).rebuilt.Some?
    ensures var run := Executed(r, q, c); var ctx := run.rebuilt.value;
      && run.simulated == Some(ctx.(gasLimit := SIMULATION_GAS))
      && ctx.gasPriceAnu == Gas.MinGasPriceAnu(ctx.creationTime)
      && c.simulation.Simulated? && ctx.gasLimit == LimitFor(c)
  {
  }

  /** The chain's answers come while the failover is in the state that its events have led to. */
  predicate CalibratedAfter(es: seq<FailoverRuns.Event>, c: Chain) {
    c.nodeLimit == NodeFailover.ActiveGasLimit(FailoverRuns.Run(es).node)
  }

  /** Whatever the failover has done before, the gas limit of the second build is at most the limit of the last
      configured node; it is zero exactly when no gas was measured, and otherwise it leaves five percent above the
      measured gas unless the node's limit forbids it. */
  lemma LimitWithinActiveNode(es: seq<FailoverRuns.Event>, r: Resolver, q: Request, c: Chain, gas: real)
    requires ValidRequest(q) && Executed(r, q, c).rebuilt.Some? && CalibratedAfter(es, c)
    requires c.simulation == Simulated(Some(Gas.Finite(gas)))
    ensures var limit := Executed(r, q, c).rebuilt.value.gasLimit;
      var nodeLimit := FailoverRuns.LimitOf(FailoverRuns.LastInstalled(es));
      && (gas > 0.0 ==> limit <= nodeLimit)
      && (gas > 0.0 && nodeLimit > 0 ==> limit > 0)
      && (gas > 0.0 && limit < nodeLimit ==> limit as real >= 1.05 * gas)
      && (gas <= 0.0 ==> limit == 0)
  {
    OneClockRead(r, q, c);
    FailoverRuns.ActiveLimitOverRuns(es);
  }

  /** The run submits `sent`, which it made of the transaction `tx` of its second build. */
  predicate Submits(r: Resolver, q: Request, c: Chain, tx: Tx, sent: Tx)
    requires ValidRequest(q)
  {
    var run := Executed(r, q, c);
    run.submitted == Some(sent) && run.rebuilt.Some? && q.build(run.rebuilt.value) == tx
  }

  /** The keys `build` can count on: the gas payer, the guard signers and the extra signers. */
  function OfferedKeys(r: Resolver, q: Request): set<Term>
    requires Assembled(r, q).Ok?
  {
    {PubOf(Assembled(r, q).value.caps)} + Elements(GuardPubs(r, q)) + KeysOf(q.extraSigners)
  }

  lemma SubmittedIsSigned(r: Resolver, q: Request, c: Chain, tx: Tx, sent: Tx)
    requires ValidRequest(q) && Submits(r, q, c, tx, sent)
    ensures Assembled(r, q).Ok? && Covered(tx.cmd)
    ensures var kps := SigningKeypairs(Assembled(r, q).value, q);
      && Signed(tx, kps, r.requestForeignKey) == Ok(sent)
      && Executed(r, q, c).asked == AskedKeys(tx, kps, r.requestForeignKey)
  {
  }

  lemma GuardKeypair(r: Resolver, q: Request, k: Term)
    requires ValidResolver(r) && Assembled(r, q).Ok? && k in GuardPubs(r, q)
    ensures var kp := KeypairFor(r, q.resolvedForeignKeys, k);
      kp.Some? && kp.value in Assembled(r, q).value.guardKeypairs && PubOf(kp.value) == k
  {
    var i :| 0 <= i < |GuardPubs(r, q)| && GuardPubs(r, q)[i] == k;
    TeamIsDisjoint(r, q);
    var t := Assembled(r, q).value;
    assert PubsOf(t.guardKeypairs)[i] == k;
    assert t.guardKeypairs[i] in t.guardKeypairs;
  }

  lemma TeamKeys(r: Resolver, q: Request)
    requires ValidResolver(r) && Assembled(r, q).Ok?
    ensures KeysOf(Assembled(r, q).value.guardKeypairs) == Elements(GuardPubs(r, q))
  {
    var t := Assembled(r, q).value;
    TeamIsDisjoint(r, q);
    forall k | k in GuardPubs(r, q) ensures k in KeysOf(t.guardKeypairs) {
      GuardKeypair(r, q, k);
    }
    forall kp | kp in t.guardKeypairs ensures PubOf(kp) in GuardPubs(r, q) {
      var i :| 0 <= i < |t.guardKeypairs| && t.guardKeypairs[i] == kp;
      assert PubsOf(t.guardKeypairs)[i] == PubOf(kp);
    }
  }

  lemma OnePerKeyKeys(all: seq<Keypair>)
    requires forall kp <- all :: kp.publicKey.Some?
    ensures OnePerPub(OnePerKey(all)) && KeysOf(OnePerKey(all)) == KeysOf(all)
  {
    OnePerKeyExact(all);
    forall kp | kp in all ensures PubOf(kp) in KeysOf(OnePerKey(all)) {
      assert kp.publicKey in Ids(OnePerKey(all));
      var y :| y in OnePerKey(all) && y.publicKey == kp.publicKey;
    }
  }

  lemma KeypairsExact(r: Resolver, q: Request)
    requires ValidResolver(r) && ValidRequest(q) && Assembled(r, q).Ok?
    ensures var kps := SigningKeypairs(Assembled(r, q).value, q);
      OnePerPub(kps) && KeysOf(kps) == OfferedKeys(r, q)
  {
    var t := Assembled(r, q).value;
    TeamIsDisjoint(r, q);
    TeamKeys(r, q);
    var all := [t.caps] + (t.guardKeypairs + q.extraSigners);
    OnePerKeyKeys(all);
    assert KeysOf(all) == {PubOf(t.caps)} + KeysOf(t.guardKeypairs) + KeysOf(q.extraSigners);
  }

  /** The submitted transaction is fully signed whenever the callback exists or `build` declares only keys it was
      offered; if the build carried no signature of its own, only then. */
  lemma SubmittedFullySigned(r: Resolver, q: Request, c: Chain, tx: Tx, sent: Tx)
    requires ValidResolver(r) && ValidRequest(q) && Submits(r, q, c, tx, sent)
    ensures Assembled(r, q).Ok? && Covered(tx.cmd)
    ensures sent.cmd == tx.cmd && sent.hash == tx.hash
    ensures r.requestForeignKey.Some? || Elements(Signers(tx.cmd)) <= OfferedKeys(r, q) ==> IsFullySigned(sent)
    ensures Unsigned(tx) && IsFullySigned(sent) ==>
      r.requestForeignKey.Some? || Elements(Signers(tx.cmd)) <= OfferedKeys(r, q)
  {
    SubmittedIsSigned(r, q, c, tx, sent);
    ReadersAgree(tx.cmd);
    var signers := Signers(tx.cmd);
    forall i: nat | i < |signers|
      ensures signers[i] in OfferedKeys(r, q) || r.requestForeignKey.Some? ==> SlotFilled(sent, i)
      ensures Unsigned(tx) && SlotFilled(sent, i) ==> signers[i] in OfferedKeys(r, q) || r.requestForeignKey.Some?
    {
      SubmittedSlot(r, q, c, tx, sent, i);
    }
    AllIn(signers, OfferedKeys(r, q));
  }

  lemma AllIn(signers: seq<Term>, keys: set<Term>)
    ensures Elements(signers) <= keys <==> forall i: nat :: i < |signers| ==> signers[i] in keys
  {
  }

  lemma SubmittedSlot(r: Resolver, q: Request, c: Chain, tx: Tx, sent: Tx, i: nat)
    requires ValidResolver(r) && ValidRequest(q) && Submits(r, q, c, tx, sent)
    requires Covered(tx.cmd) && Assembled(r, q).Ok? && i < |Signers(tx.cmd)|
    ensures var signer := Signers(tx.cmd)[i];
      && (signer in OfferedKeys(r, q) || r.requestForeignKey.Some? ==> SlotFilled(sent, i))
      && (Unsigned(tx) && SlotFilled(sent, i) ==> signer in OfferedKeys(r, q) || r.requestForeignKey.Some?)
  {
    SubmittedIsSigned(r, q, c, tx, sent);
    KeypairsExact(r, q);
    SignedSlot(tx, SigningKeypairs(Assembled(r, q).value, q), r.requestForeignKey, sent, i);
  }

  /** The callback is asked exactly once for every distinct declared signer nobody offered, and for no one else; a
      run in which it refuses, or answers with another key, submits nothing. */
  lemma AskedExactlyOnce(r: Resolver, q: Request, c: Chain, tx: Tx, sent: Tx)
    requires ValidResolver(r) && ValidRequest(q) && Submits(r, q, c, tx, sent)
    ensures Assembled(r, q).Ok? && Covered(tx.cmd)
    ensures var asked := Executed(r, q, c).asked;
      && Distinct(asked)
      && Elements(asked) ==
           (if r.requestForeignKey.Some? then Elements(Signers(tx.cmd)) - OfferedKeys(r, q) else {})
      && forall k <- asked ::
        r.requestForeignKey.value(k).Some? && Derive(r.requestForeignKey.value(k).value) == Some(k)
  {
    SubmittedIsSigned(r, q, c, tx, sent);
    KeypairsExact(r, q);
    if r.requestForeignKey.Some? {
      var signers := Signers(tx.cmd);
      var handled := Handled(SigningKeypairs(Assembled(r, q).value, q), signers);
      assert Elements(signers) - handled == Elements(signers) - OfferedKeys(r, q);
      AskedOnce(signers, handled, r.requestForeignKey.value);
      AnswersUsed(signers, handled, r.requestForeignKey.value);
      forall k | k in Executed(r, q, c).asked ensures k in signers && k !in handled {
        assert k in Elements(Executed(r, q, c).asked);
      }
    }
  }

  /** In a transaction built without signatures, the signature of a collected guard key verifies exactly when its
      keypair is honest: a pasted key is not compared with the key it was pasted for. */
  lemma GuardSignatureVerifiesIff(r: Resolver, q: Request, c: Chain, tx: Tx, sent: Tx, i: nat)
    requires ValidResolver(r) && ValidRequest(q) && Submits(r, q, c, tx, sent) && Unsigned(tx)
    requires Covered(tx.cmd) && i < |Signers(tx.cmd)| && Signers(tx.cmd)[i] in GuardPubs(r, q)
    ensures SlotFilled(sent, i)
    ensures var k := Signers(tx.cmd)[i];
      && KeypairFor(r, q.resolvedForeignKeys, k).Some?
      && (Verifies(k, sent.hash, sent.sigs[i].sig.value) <==> Honest(KeypairFor(r, q.resolvedForeignKeys, k).value))
      && (k !in r.codexPubs ==>
           (Verifies(k, sent.hash, sent.sigs[i].sig.value) <==> Pub(q.resolvedForeignKeys[k]) == k))
  {
    SubmittedIsSigned(r, q, c, tx, sent);
    KeypairsExact(r, q);
    var k, kp := Signers(tx.cmd)[i], KeypairFor(r, q.resolvedForeignKeys, Signers(tx.cmd)[i]);
    GuardKeypairUsed(r, q, k);
    var kps := SigningKeypairs(Assembled(r, q).value, q);
    SignedSlot(tx, kps, r.requestForeignKey, sent, i);
    VerifiesIffHonest(tx, kps, r.requestForeignKey, kp.value);
  }

  /** The signature a keypair made in a successful pass verifies exactly when the keypair is honest. */
  lemma VerifiesIffHonest(tx: Tx, kps: seq<Keypair>, cb: Option<Callback>, kp: Keypair)
    requires Covered(tx.cmd) && AllSignatures(tx, kps, cb).Ok? && kp in kps && PubOf(kp) in Signers(tx.cmd)
    ensures Verifies(PubOf(kp), tx.hash, SignatureBy(kp, tx.hash).sig) <==> Honest(kp)
  {
    SignaturesExact(tx, kps, cb);
  }

  lemma GuardKeypairUsed(r: Resolver, q: Request, k: Term)
    requires ValidResolver(r) && ValidRequest(q) && Assembled(r, q).Ok?
    requires k in GuardPubs(r, q)
    ensures var kp := KeypairFor(r, q.resolvedForeignKeys, k);
      kp.Some? && PubOf(kp.value) == k && kp.value in SigningKeypairs(Assembled(r, q).value, q)
  {
    GuardKeypair(r, q, k);
    TeamIsDisjoint(r, q);
    TeamKeypairUsed(Assembled(r, q).value, q, KeypairFor(r, q.resolvedForeignKeys, k).value);
  }

  lemma TeamKeypairUsed(t: Team, q: Request, kp: Keypair)
    requires kp in t.guardKeypairs && Distinct(PubsOf(t.guardKeypairs)) && PubOf(t.caps) !in PubsOf(t.guardKeypairs)
    ensures kp in SigningKeypairs(t, q)
  {
    var own := [t.caps] + t.guardKeypairs;
    var pubs := PubsOf(t.guardKeypairs);
    var i :| 0 <= i < |t.guardKeypairs| && t.guardKeypairs[i] == kp;
    assert pubs[i] in pubs;
    forall y | y in own && y.publicKey == kp.publicKey ensures y == kp {
      assert PubOf(y) == pubs[i];
      var j :| 0 <= j < |t.guardKeypairs| && t.guardKeypairs[j] == y;
      assert pubs[j] == pubs[i];
    }
    InOnePerKey(own, kp);
    OnePerKeyPrefix(own, q.extraSigners);
    assert own + q.extraSigners == [t.caps] + (t.guardKeypairs + q.extraSigners);
  }

  lemma InOnePerKey(all: seq<Keypair>, kp: Keypair)
    requires kp in all && forall y <- all :: y.publicKey == kp.publicKey ==> y == kp
    ensures kp in OnePerKey(all)
  {
    OnePerKeyExact(all);
    assert kp.publicKey in Ids(OnePerKey(all));
    var y :| y in OnePerKey(all) && y.publicKey == kp.publicKey;
    assert y in all;
  }

  lemma {:induction false} OnePerKeyPrefix(xs: seq<Keypair>, ys: seq<Keypair>)
    ensures OnePerKey(xs) <= OnePerKey(xs + ys)
  {
    if ys == [] {
      assert xs + ys == xs;
    } else {
      OnePerKeyPrefix(xs, ys[..|ys| - 1]);
      assert (xs + ys)[..|xs + ys| - 1] == xs + ys[..|ys| - 1];
    }
  }

  /** A declared slot holds a signature of the transaction that verifies for the key. */
  ghost predicate Endorsed(tx: Tx, k: Term)
    requires Covered(tx.cmd)
  {
    exists i: nat :: SlotFilled(tx, i) && i < |Signers(tx.cmd)| && Signers(tx.cmd)[i] == k
      && Verifies(k, tx.hash, tx.sigs[i].sig.value)
  }

  /** From thresholds to signatures: if `build` declares the guard signers and their keypairs are honest, every
      satisfied guard without repeated keys has at least its threshold of keys whose signatures verify in the
      transaction that is submitted. */
  lemma ThresholdEndorsed(r: Resolver, q: Request, c: Chain, tx: Tx, sent: Tx, g: Guard)
    requires ValidResolver(r) && ValidRequest(q) && Submits(r, q, c, tx, sent) && Unsigned(tx)
    requires Covered(tx.cmd) && Elements(GuardPubs(r, q)) <= Elements(Signers(tx.cmd))
    requires forall k <- GuardPubs(r, q) ::
      KeypairFor(r, q.resolvedForeignKeys, k).Some? ==> Honest(KeypairFor(r, q.resolvedForeignKeys, k).value)
    requires g in q.guards && Distinct(g.keys) && Satisfied(g, Elements(r.codexPubs), q.resolvedForeignKeys)
    ensures sent.cmd == tx.cmd
    ensures |set k | k in g.keys && Endorsed(sent, k)| >= GuardThreshold(g)
  {
    SubmittedIsSigned(r, q, c, tx, sent);
    ThresholdReachedIff(r, q, g);
    var signers := Signers(tx.cmd);
    forall k | k in SignersOf(g, r, q) ensures Endorsed(sent, k) {
      assert k in Elements(GuardPubs(r, q)) && k in Elements(signers);
      var i: nat :| i < |signers| && signers[i] == k;
      GuardSignatureVerifiesIff(r, q, c, tx, sent, i);
    }
    SubsetSize(SignersOf(g, r, q), set k | k in g.keys && Endorsed(sent, k));
  }
}
