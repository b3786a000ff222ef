/**
 What `build` is offered, what a builder that declares just that gets signed, and which refusal or outcome a run ends
 with.
 */
module CodexBuild {
  import opened Wrappers
  import opened Seqs
  import opened Terms
  import opened Guards
  import opened UniversalSign
  import opened PartialSig
  import opened CodexStrategy
  import opened CodexOutcome
  import Gas

  // ---------- The offer ----------

  lemma Contexts(r: Resolver, q: Request, c: Chain)
    requires ValidRequest(q) && Executed(r, q, c).simulated.Some?
    ensures Assembled(r, q).Ok?
    ensures var run, t := Executed(r, q, c), Assembled(r, q).value;
      && run.simulated == Some(CtxFor(t, c, 500_000))
      && (run.rebuilt.Some? ==> c.simulation.Simulated? && run.rebuilt == Some(CtxFor(t, c, LimitFor(c))))
  {
  }

  lemma BothBuilds(r: Resolver, q: Request, c: Chain)
    requires ValidRequest(q) && Executed(r, q, c).rebuilt.Some?
    ensures Executed(r, q, c).simulated.Some?
  {
  }

  /** Both builds are offered the collected guard keys, in their order, a codex key outside them that pays for gas, and
      the time of the single clock read with the price of that time; the first one gets 500,000 gas. */
  lemma OfferedToBuild(r: Resolver, q: Request, c: Chain)
    requires ValidResolver(r) && ValidRequest(q) && Executed(r, q, c).simulated.Some?
    ensures var ctx := Executed(r, q, c).simulated.value;
      && ctx.guardPubs == GuardPubs(r, q) && Distinct(ctx.guardPubs)
      && ctx.capsKeyPub in r.codexPubs && ctx.capsKeyPub !in ctx.guardPubs
      && ctx.creationTime == c.nowS && ctx.gasPriceAnu == Gas.MinGasPriceAnu(c.nowS)
      && ctx.gasLimit == 500_000
    ensures Executed(r, q, c).rebuilt.Some? ==>
      Executed(r, q, c).rebuilt.value == Executed(r, q, c).simulated.value.(gasLimit := LimitFor(c))
  {
    Contexts(r, q, c);
    TeamIsDisjoint(r, q);
  }

  /** A builder that makes an unsigned transaction and declares just what it is offered, and the extra signers. */
  ghost predicate DeclaresOffer(q: Request) {
    forall ctx ::
      && Covered(q.build(ctx).cmd) && Unsigned(q.build(ctx))
      && Elements(Signers(q.build(ctx).cmd)) == {ctx.capsKeyPub} + Elements(ctx.guardPubs) + KeysOf(q.extraSigners)
  }

  lemma DeclaredIsOffered(r: Resolver, q: Request, c: Chain, tx: Tx, sent: Tx)
    requires ValidResolver(r) && ValidRequest(q) && DeclaresOffer(q) && Submits(r, q, c, tx, sent)
    ensures Assembled(r, q).Ok? && Covered(tx.cmd) && Unsigned(tx)
    ensures Elements(Signers(tx.cmd)) == OfferedKeys(r, q)
    ensures Elements(GuardPubs(r, q)) <= Elements(Signers(tx.cmd))
  {
    SubmittedIsSigned(r, q, c, tx, sent);
    BothBuilds(r, q, c);
    Contexts(r, q, c);
    TeamIsDisjoint(r, q);
    assert Elements(Signers(tx.cmd)) == OfferedKeys(r, q);
  }

  /** What such a builder makes is submitted fully signed, and nobody is asked for a key. */
  lemma OfferFullySigned(r: Resolver, q: Request, c: Chain, tx: Tx, sent: Tx)
    requires ValidResolver(r) && ValidRequest(q) && DeclaresOffer(q) && Submits(r, q, c, tx, sent)
    ensures sent.cmd == tx.cmd && sent.hash == tx.hash && IsFullySigned(sent)
    ensures Executed(r, q, c).asked == []
  {
    DeclaredIsOffered(r, q, c, tx, sent);
    SubmittedFullySigned(r, q, c, tx, sent);
    AskedExactlyOnce(r, q, c, tx, sent);
    DistinctSize(Executed(r, q, c).asked);
  }

  /** From guards to signatures: with honest keypairs, every satisfied guard without repeated keys has at least its
      threshold of verifying signatures in what is submitted. */
  lemma OfferEndorsed(r: Resolver, q: Request, c: Chain, tx: Tx, sent: Tx, g: Guard)
    requires ValidResolver(r) && ValidRequest(q) && DeclaresOffer(q) && Submits(r, q, c, tx, sent)
    requires forall k <- GuardPubs(r, q) ::
      KeypairFor(r, q.resolvedForeignKeys, k).Some? ==> Honest(KeypairFor(r, q.resolvedForeignKeys, k).value)
    requires g in q.guards && Distinct(g.keys) && Satisfied(g, Elements(r.codexPubs), q.resolvedForeignKeys)
    ensures Covered(tx.cmd) && sent.cmd == tx.cmd
    ensures |set k | k in g.keys && Endorsed(sent, k)| >= GuardThreshold(g)
  {
    DeclaredIsOffered(r, q, c, tx, sent);
    ThresholdEndorsed(r, q, c, tx, sent, g);
  }

  /** The gas payer's slot holds the signature of the payer's own keypair, even if an extra signer has the same key. */
  lemma PayerSigns(r: Resolver, q: Request, c: Chain, tx: Tx, sent: Tx, i: nat)
    requires ValidResolver(r) && ValidRequest(q) && Submits(r, q, c, tx, sent) && Unsigned(tx)
    requires Assembled(r, q).Ok? && Covered(tx.cmd) && i < |Signers(tx.cmd)|
    requires Signers(tx.cmd)[i] == PubOf(Assembled(r, q).value.caps)
    ensures SlotFilled(sent, i)
    ensures Verifies(Signers(tx.cmd)[i], sent.hash, sent.sigs[i].sig.value) <==> Honest(Assembled(r, q).value.caps)
  {
    SubmittedIsSigned(r, q, c, tx, sent);
    KeypairsExact(r, q);
    var t := Assembled(r, q).value;
    var kps := SigningKeypairs(t, q);
    PayerUsed(t, q);
    SignedSlot(tx, kps, r.requestForeignKey, sent, i);
    VerifiesIffHonest(tx, kps, r.requestForeignKey, t.caps);
  }

  lemma PayerUsed(t: Team, q: Request)
    ensures t.caps in SigningKeypairs(t, q)
  {
    var all := [t.caps] + (t.guardKeypairs + q.extraSigners);
    OnePerKeyExact(all);
    assert all[0] == t.caps;
  }

  // ---------- Refusals and outcomes ----------

  /** Some marked guard has no codex key. */
  predicate SmartAccountOutOfReach(r: Resolver, q: Request) {
    exists g <- q.guards :: SigmaMarked(g) && forall k <- g.keys :: k !in r.codexPubs
  }

  /** Some guard key is neither in the codex nor pre-resolved, and there is nobody to ask. */
  predicate NobodyToAsk(r: Resolver, q: Request) {
    && r.requestForeignKey.None?
    && exists g <- q.guards :: exists k <- g.keys :: k !in r.codexPubs && k !in q.resolvedForeignKeys
  }

  /** A run is refused for the first reason, or else for the second, exactly if it holds. */
  lemma GuardRefusals(r: Resolver, q: Request)
    ensures SmartAccountOutOfReach(r, q) <==> Assembled(r, q).Err? && Assembled(r, q).error.SmartAccountGuard?
    ensures !SmartAccountOutOfReach(r, q) && NobodyToAsk(r, q) <==>
      Assembled(r, q).Err? && Assembled(r, q).error.NoForeignResolver?
  {
    ReachIff(r, q);
    NobodyIff(r, q);
    RefusalKinds(r, q);
  }

  lemma ReachIff(r: Resolver, q: Request)
    ensures SmartAccountOutOfReach(r, q) <==> FirstOutOfReach(q.guards, Elements(r.codexPubs)).Some?
  {
    SigmaFiresIff(q.guards, Elements(r.codexPubs));
  }

  lemma NobodyIff(r: Resolver, q: Request)
    ensures NobodyToAsk(r, q) <==>
      r.requestForeignKey.None? && ForeignProblem(q.guards, Elements(r.codexPubs), q.resolvedForeignKeys).Some?
  {
    ForeignIff(q.guards, Elements(r.codexPubs), q.resolvedForeignKeys);
  }

  lemma RefusalKinds(r: Resolver, q: Request)
    ensures var codex := Elements(r.codexPubs);
      var marked := FirstOutOfReach(q.guards, codex).Some?;
      var nobody := r.requestForeignKey.None? && ForeignProblem(q.guards, codex, q.resolvedForeignKeys).Some?;
      && (marked <==> Assembled(r, q).Err? && Assembled(r, q).error.SmartAccountGuard?)
      && (!marked && nobody <==> Assembled(r, q).Err? && Assembled(r, q).error.NoForeignResolver?)
  {
    var codex := Elements(r.codexPubs);
    if FirstOutOfReach(q.guards, codex).Some? {
      assert Assembled(r, q).Err? && Assembled(r, q).error.SmartAccountGuard?;
    } else if r.requestForeignKey.None? && ForeignProblem(q.guards, codex, q.resolvedForeignKeys).Some? {
      assert Assembled(r, q).Err? && Assembled(r, q).error.NoForeignResolver?;
    } else {
      LaterRefusals(r, q);
    }
  }

  /** What remains is a key that is not resolved, or that nobody is free to pay. */
  lemma LaterRefusals(r: Resolver, q: Request)
    requires var codex := Elements(r.codexPubs);
      && FirstOutOfReach(q.guards, codex).None?
      && (r.requestForeignKey.None? ==> ForeignProblem(q.guards, codex, q.resolvedForeignKeys).None?)
    ensures Assembled(r, q).Err? ==>
      var e := Assembled(r, q).error; e.KeyNotResolved? || e.PaymentKeyNeededByGuard? || e.NoFreeCodexKey?
  {
    if KeypairsFor(r, q.resolvedForeignKeys, GuardPubs(r, q)).Err? {
      var _ := KeypairErrors(r, q.resolvedForeignKeys, GuardPubs(r, q));
    }
  }

  /** After that, and once the guard keys are resolved, it is refused for want of a gas payer exactly when every codex
      key is needed by a guard, and the payment key is blamed exactly when it is one of them. */
  lemma PayerRefusals(r: Resolver, q: Request)
    requires !SmartAccountOutOfReach(r, q) && !NobodyToAsk(r, q) && EMPTY !in r.codexPubs
    requires KeypairsFor(r, q.resolvedForeignKeys, GuardPubs(r, q)).Ok?
    ensures var noneFree := forall k <- r.codexPubs :: k in GuardPubs(r, q);
      var paying := q.paymentKey.Some? && q.paymentKey.value != EMPTY && q.paymentKey.value in GuardPubs(r, q);
      && (Assembled(r, q) == Err(PaymentKeyNeededByGuard) <==> noneFree && paying)
      && (Assembled(r, q) == Err(NoFreeCodexKey) <==> noneFree && !paying)
  {
    var codex, pubs := Elements(r.codexPubs), GuardPubs(r, q);
    SigmaFiresIff(q.guards, codex);
    ForeignIff(q.guards, codex, q.resolvedForeignKeys);
    CapsKeyIsFree(q.paymentKey, r.codexPubs, Elements(pubs));
  }

  /** A guard key that is not resolved is named: the first one. */
  lemma {:induction false} KeypairErrors(r: Resolver, resolved: map<Term, Term>, pubs: seq<Term>) returns (i: nat)
    requires KeypairsFor(r, resolved, pubs).Err?
    ensures i < |pubs| && KeypairsFor(r, resolved, pubs) == Err(KeyNotResolved(pubs[i]))
    ensures KeypairFor(r, resolved, pubs[i]).None? && KeypairsFor(r, resolved, pubs[..i]).Ok?
  {
    var front := pubs[..|pubs| - 1];
    if KeypairsFor(r, resolved, front).Err? {
      i := KeypairErrors(r, resolved, front);
      assert front[..i] == pubs[..i];
    } else {
      i := |pubs| - 1;
    }
  }

  /** A foreign key that nobody can be asked for is named: the first of the first guard that has one. */
  lemma {:induction false} ForeignNamed(guards: seq<Guard>, codex: set<Term>, resolved: map<Term, Term>)
    returns (i: nat, j: nat)
    requires ForeignProblem(guards, codex, resolved).Some?
    ensures i < |guards| && j < |guards[i].keys|
    ensures ForeignProblem(guards, codex, resolved) == Some(guards[i].keys[j])
    ensures guards[i].keys[j] !in codex && guards[i].keys[j] !in resolved
    ensures forall k <- guards[i].keys[..j] :: Reachable(k, codex, resolved)
    ensures forall g <- guards[..i] :: forall k <- g.keys :: Reachable(k, codex, resolved)
  {
    if FirstUnreachable(guards[0].keys, codex, resolved).Some? {
      j := FirstNamed(guards[0].keys, codex, resolved);
      i := 0;
    } else {
      i, j := ForeignNamed(guards[1..], codex, resolved);
      i := i + 1;
      assert guards[..i] == [guards[0]] + guards[1..][..i - 1];
    }
  }

  lemma {:induction false} FirstNamed(keys: seq<Term>, codex: set<Term>, resolved: map<Term, Term>) returns (j: nat)
    requires FirstUnreachable(keys, codex, resolved).Some?
    ensures j < |keys| && FirstUnreachable(keys, codex, resolved) == Some(keys[j])
    ensures !Reachable(keys[j], codex, resolved) && forall k <- keys[..j] :: Reachable(k, codex, resolved)
  {
    if !Reachable(keys[0], codex, resolved) {
      j := 0;
    } else {
      j := FirstNamed(keys[1..], codex, resolved);
      j := j + 1;
      assert keys[..j] == [keys[0]] + keys[1..][..j - 1];
    }
  }

  lemma ForeignIff(guards: seq<Guard>, codex: set<Term>, resolved: map<Term, Term>)
    ensures ForeignProblem(guards, codex, resolved).Some? <==>
      exists g <- guards :: exists k <- g.keys :: k !in codex && k !in resolved
  {
    if ForeignProblem(guards, codex, resolved).Some? {
      var g :| g in guards && !(forall k <- g.keys :: Reachable(k, codex, resolved));
      var k :| k in g.keys && !Reachable(k, codex, resolved);
    }
  }

  /** Something is submitted only after a simulation that succeeded, and the outcome is that of the first thing that
      fails; a simulation that reports no gas counts as one of 500,000. */
  lemma OutcomesExactly(r: Resolver, q: Request, c: Chain)
    requires ValidRequest(q) && Assembled(r, q).Ok?
    ensures var run := Executed(r, q, c);
      && run.simulated.Some?
      && (run.rebuilt.Some? <==> c.simulation.Simulated?)
      && (run.submitted.Some? ==> c.simulation.Simulated?)
      && (c.simulation.SimulationTimedOut? ==> run.outcome == Err(SimTimeout))
      && (c.simulation.SimulationRaised? ==> run.outcome == Err(SimRaised))
      && (c.simulation.SimulationFailed? ==> run.outcome == Err(SimFailure))
      && (c.simulation.Simulated? && run.submitted.None? ==> run.outcome.Err? && run.outcome.error.NotSigned?)
      && (run.submitted.Some? && c.submission.SubmitTimedOut? ==> run.outcome == Err(SubmissionTimeout))
      && (run.submitted.Some? && c.submission.SubmitRaised? ==> run.outcome == Err(SubmissionRaised))
      && (run.submitted.Some? && c.submission.Accepted? ==> run.outcome == Ok(c.submission.requestKey))
    ensures c.simulation == Simulated(None) ==>
      Executed(r, q, c).rebuilt.value.gasLimit == Gas.CalculateAutoGasLimit(Gas.Finite(500_000.0), c.nodeLimit)
  {
  }

  // ---------- Smart-account marks ----------

  /** The text holds a capital Sigma followed by a full stop. */
  predicate HoldsMark(text: string, at: nat) {
    at + 1 < |text| && text[at] == '\U{03A3}' && text[at + 1] == '.'
  }

  lemma ContainsMark(text: string)
    ensures Contains(text, SIGMA) <==> exists at: nat :: HoldsMark(text, at)
  {
    if Contains(text, SIGMA) {
      var i :| 0 <= i <= |text| && SIGMA <= text[i..];
      assert text[i..][0] == SIGMA[0] && text[i..][1] == SIGMA[1];
      assert HoldsMark(text, i);
    }
    if at: nat :| HoldsMark(text, at) {
      assert text[at..][..2] == SIGMA;
    }
  }

  /** A guard is marked exactly when its reference, or the text of one of its keys, holds the mark. */
  lemma MarkedIff(g: Guard)
    ensures SigmaMarked(g) <==>
      || (g.keysetRef.Some? && exists at: nat :: HoldsMark(g.keysetRef.value, at))
      || exists k <- g.keys :: k.Lit? && exists at: nat :: HoldsMark(k.text, at)
  {
    if g.keysetRef.Some? {
      ContainsMark(g.keysetRef.value);
    }
    forall k | k in g.keys && k.Lit? ensures Contains(k.text, SIGMA) <==> exists at: nat :: HoldsMark(k.text, at) {
      ContainsMark(k.text);
    }
  }

  // ---------- First come, first served ----------

  /** Keys are collected in the order in which they first occur: when one is collected before another, an occurrence
      of it comes before every occurrence of the other. */
  lemma {:induction false} DedupedOrder(xs: seq<Term>, a: nat, b: nat) returns (i: nat)
    requires a < b < |Deduped(xs)|
    ensures i < |xs| && xs[i] == Deduped(xs)[a] && Deduped(xs)[b] !in xs[..i + 1]
  {
    var front, last := xs[..|xs| - 1], xs[|xs| - 1];
    var before := Deduped(front);
    assert xs == front + [last];
    if b < |before| {
      i := DedupedOrder(front, a, b);
      assert xs[..i + 1] == front[..i + 1];
    } else {
      DedupedExact(front);
      assert before[a] in Elements(before);
      i :| 0 <= i < |front| && front[i] == before[a];
      assert xs[..i + 1] == front[..i + 1];
      assert last in front ==> last in Elements(before);
      assert forall x <- front[..i + 1] :: x in front;
    }
  }

  /** Of several keypairs for one key, the first signs: the payer's before a guard's, and a guard's before an extra
      signer's. */
  lemma {:induction false} FirstKeypairSigns(kps: seq<Keypair>, i: nat)
    requires i < |kps| && forall j :: 0 <= j < i ==> kps[j].publicKey != kps[i].publicKey
    ensures kps[i] in OnePerKey(kps)
  {
    var front, last := kps[..|kps| - 1], kps[|kps| - 1];
    if i < |front| {
      FirstKeypairSigns(front, i);
    } else {
      OnePerKeyExact(front);
      NotAmongIds(front, last.publicKey);
    }
  }

  lemma NotAmongIds(kps: seq<Keypair>, id: Option<Term>)
    requires forall j :: 0 <= j < |kps| ==> kps[j].publicKey != id
    ensures id !in Ids(kps)
  {
  }
}
