/**
 The partial-signing protocol from any start: a transaction whose filled entries are not all found under their
 signers' keys, or that has too few or too many entries.
 */
module PartyOutcome {
  import opened Wrappers
  import opened Seqs
  import opened Terms
  import opened UniversalSign
  import opened PartialSig

  /** The transaction as the first signature that is added finds it: every signer has the filled entry found under its
      key, or an empty one. */
  function Normal(tx: Tx): Tx
    requires Covered(tx.cmd)
  {
    tx.(sigs := MergedSlots(tx.sigs, Signers(tx.cmd), []))
  }

  lemma NormalKeeps(tx: Tx, key: Term)
    requires Covered(tx.cmd) && key in Signers(tx.cmd)
    ensures Existing(Normal(tx).sigs, key) == Existing(tx.sigs, key)
  {
    FindMerged(tx.sigs, Signers(tx.cmd), [], key);
  }

  lemma NormalIsTidy(tx: Tx)
    requires Covered(tx.cmd)
    ensures Tidy(Normal(tx))
  {
    var signers := Signers(tx.cmd);
    forall i | 0 <= i < |signers| ensures FindKeyed(Normal(tx).sigs, signers[i]) == Some(Normal(tx).sigs[i]) {
      FindMerged(tx.sigs, signers, [], signers[i]);
    }
  }

  lemma MergedAlike(tx: Tx, ss: seq<Signature>)
    requires Covered(tx.cmd) && ss != []
    ensures Merged(Normal(tx), ss) == Merged(tx, ss)
  {
    var signers := Signers(tx.cmd);
    forall i | 0 <= i < |signers|
      ensures MergedSlot(Normal(tx).sigs, signers[i], ss) == MergedSlot(tx.sigs, signers[i], ss)
    {
      NormalKeeps(tx, signers[i]);
    }
    assert MergedSlots(Normal(tx).sigs, signers, ss) == MergedSlots(tx.sigs, signers, ss);
  }

  /** Some party holds a declared key. */
  predicate SomeoneSigns(tx: Tx, keys: set<Term>)
    requires Covered(tx.cmd)
  {
    exists k <- Signers(tx.cmd) :: k in keys
  }

  /** The first pass that signs anything has the effect of the same pass on the normal form. */
  lemma FirstPass(tx: Tx, kps: seq<Keypair>)
    requires Covered(tx.cmd) && AllHonest(kps)
    ensures SignPartial(tx, kps).Ok?
    ensures !SomeoneSigns(tx, KeysOf(kps)) ==> SignPartial(tx, kps).value == tx
    ensures SomeoneSigns(tx, KeysOf(kps)) ==> Progress(Normal(tx), SignPartial(tx, kps).value, KeysOf(kps))
  {
    HonestSignatures(tx, kps);
    NoSignatureIff(tx, kps);
    assert (forall kp <- kps :: PubOf(kp) !in Signers(tx.cmd)) <==> !SomeoneSigns(tx, KeysOf(kps));
    if SomeoneSigns(tx, KeysOf(kps)) {
      NormalIsTidy(tx);
      OnePass(Normal(tx), kps);
      MergedAlike(tx, AllSignatures(tx, kps, None).value);
    }
  }

  lemma MoreKeys(tx: Tx, t: Tx, keys: set<Term>, more: set<Term>)
    requires Covered(tx.cmd) && Progress(tx, t, keys)
    requires forall k <- Signers(tx.cmd) :: k in keys <==> k in more
    ensures Progress(tx, t, more)
  {
    forall i | 0 <= i < |tx.sigs|
      ensures SigIn(t.sigs[i]) == SigAfter(tx.sigs[i], Signers(tx.cmd)[i], more, tx.hash)
    {
      assert SigIn(t.sigs[i]) == SigAfter(tx.sigs[i], Signers(tx.cmd)[i], keys, tx.hash);
    }
  }

  ghost predicate OutcomeIs(tx: Tx, t: Tx, keys: set<Term>)
    requires Covered(tx.cmd)
  {
    if SomeoneSigns(tx, keys) then Progress(Normal(tx), t, keys) else t == tx
  }

  lemma OutcomeStep(tx: Tx, mid: Tx, keys: set<Term>, kps: seq<Keypair>)
    requires Covered(tx.cmd) && OutcomeIs(tx, mid, keys) && AllHonest(kps)
    ensures SignPartial(mid, kps).Ok? && OutcomeIs(tx, SignPartial(mid, kps).value, keys + KeysOf(kps))
  {
    if SomeoneSigns(tx, keys) {
      ProgressPass(Normal(tx), mid, keys, kps);
      assert SomeoneSigns(tx, keys + KeysOf(kps));
    } else {
      FirstPass(tx, kps);
      if SomeoneSigns(tx, KeysOf(kps)) {
        MoreKeys(Normal(tx), SignPartial(tx, kps).value, KeysOf(kps), keys + KeysOf(kps));
      }
    }
  }

  /** From any start, no step fails; as long as no party holds a declared key nothing changes, and otherwise the
      outcome is that of the normal form. */
  lemma {:induction false} OutcomeFromAny(tx: Tx, steps: seq<PartyStep>)
    requires Covered(tx.cmd) && tx.hash == KadenaHash(tx.cmd) && HonestSteps(steps)
    ensures DoAll(tx, steps).Some? && OutcomeIs(tx, DoAll(tx, steps).value, AllKeys(steps))
  {
    if steps != [] {
      var front := steps[..|steps| - 1];
      OutcomeFromAny(tx, front);
      var mid := DoAll(tx, front).value;
      match steps[|steps| - 1]
      case SignWith(kps) =>
        assert steps[|steps| - 1] in steps;
        OutcomeStep(tx, mid, AllKeys(front), kps);
      case HandOver(metadata) =>
        ImportOfExport(mid, metadata);
        assert AllKeys(steps) == AllKeys(front);
    }
  }

  /** In a tidy transaction a filled entry carries its signer's key. */
  lemma TidySlot(t: Tx, i: nat)
    requires Covered(t.cmd) && Tidy(t) && i < |t.sigs|
    ensures Filled(t.sigs[i]) ==> t.sigs[i] == Slot(Some(Signers(t.cmd)[i]), t.sigs[i].sig)
  {
    FindHasKey(t.sigs, Signers(t.cmd)[i]);
  }

  /** Which filled entries survive a whole sequence of signings and hand-offs: all, if no party holds a declared key;
      and otherwise exactly those that are the first entry found under their signer's key, or already hold, keyed,
      the valid signature that one of the parties makes. */
  lemma SlotSurvivesIff(tx: Tx, steps: seq<PartyStep>, i: nat)
    requires Covered(tx.cmd) && tx.hash == KadenaHash(tx.cmd) && HonestSteps(steps)
    requires i < |Signers(tx.cmd)| && i < |tx.sigs| && Filled(tx.sigs[i])
    ensures DoAll(tx, steps).Some? && i < |DoAll(tx, steps).value.sigs|
    ensures var key := Signers(tx.cmd)[i];
      DoAll(tx, steps).value.sigs[i] == tx.sigs[i] <==>
        || !SomeoneSigns(tx, AllKeys(steps))
        || FindKeyed(tx.sigs, key) == Some(tx.sigs[i])
        || (Existing(tx.sigs, key).None? && key in AllKeys(steps)
            && tx.sigs[i] == Slot(Some(key), Some(ValidSig(key, tx.hash))))
  {
    OutcomeFromAny(tx, steps);
    var t, key := DoAll(tx, steps).value, Signers(tx.cmd)[i];
    if SomeoneSigns(tx, AllKeys(steps)) {
      var n := Normal(tx).sigs[i];
      assert n == MergedSlot(tx.sigs, key, []);
      assert SigIn(t.sigs[i]) == SigAfter(n, key, AllKeys(steps), tx.hash);
      TidySlot(t, i);
      FindHasKey(tx.sigs, key);
    }
  }

  /** Whatever is imported can start the protocol: its hash is that of its command. */
  lemma ImportStartsProtocol(text: Term, steps: seq<PartyStep>)
    requires DeserializePartialTransaction(text).Ok? && Covered(DeserializePartialTransaction(text).value.cmd)
    requires HonestSteps(steps)
    ensures var tx := DeserializePartialTransaction(text).value;
      DoAll(tx, steps).Some? && OutcomeIs(tx, DoAll(tx, steps).value, AllKeys(steps))
  {
    OutcomeFromAny(DeserializePartialTransaction(text).value, steps);
  }
}
