/**
 Signing a transaction: every keypair is routed to the algorithm its seed type demands, signers without a
 keypair are asked for, and each signature is put into the slots of its signer. The vendored `addSignatures`
 is modelled with its own lookup: it keeps a signature only if it finds it under the signer's key.
 */
module UniversalSign {
  import opened Wrappers
  import opened Seqs
  import opened Terms

  /** An entry of `sigs`: null or undefined, or an object whose two fields may be absent. */
  datatype Slot = Vacant | Slot(pubKey: Option<Term>, sig: Option<Term>)

  datatype Tx = Tx(cmd: Term, hash: Term, sigs: seq<Slot>)

  predicate Filled(s: Slot) {
    s.Slot? && s.sig.Some? && s.sig.value != EMPTY
  }

  predicate HasPubKey(signer: Json) {
    Field(signer, "pubKey").Some? && Field(signer, "pubKey").value.Str?
  }

  function PubKeyField(signer: Json): Term {
    if HasPubKey(signer) then signer.fields["pubKey"].t else EMPTY
  }

  /** Commands whose signers, if there are any, are objects with a string `pubKey`. */
  predicate Covered(cmd: Term) {
    && cmd.Text? && cmd.json.Obj?
    && (Field(cmd.json, "signers").Some? ==>
        && Field(cmd.json, "signers").value.Arr?
        && forall s <- Field(cmd.json, "signers").value.items :: HasPubKey(s))
  }

  function Signers(cmd: Term): seq<Term>
    requires Covered(cmd)
  {
    match Field(cmd.json, "signers")
    case None => []
    case Some(signers) =>
      seq(|signers.items|, i requires 0 <= i < |signers.items| => PubKeyField(signers.items[i]))
  }

  // ---------- addSignatures ----------

  function FindKeyed(sigs: seq<Slot>, key: Term): Option<Slot> {
    if sigs == [] then None
    else if sigs[0].Slot? && sigs[0].pubKey == Some(key) then Some(sigs[0])
    else FindKeyed(sigs[1..], key)
  }

  /** The filled entry found under the signer's key, if there is one. */
  function Existing(sigs: seq<Slot>, key: Term): Option<Slot> {
    var found := FindKeyed(sigs, key);
    if found.Some? && Filled(found.value) then found else None
  }

  datatype Signature = Signature(pub: Term, sig: Term)

  function SlotAfter(sigs: seq<Slot>, key: Term, s: Signature): Slot {
    var existing := Existing(sigs, key);
    if existing.Some? then existing.value
    else Slot(Some(key), if s.pub == key && s.sig != EMPTY then Some(s.sig) else None)
  }

  function SlotsAfter(sigs: seq<Slot>, signers: seq<Term>, s: Signature): (r: seq<Slot>)
    ensures |r| == |signers|
    ensures forall i :: 0 <= i < |r| ==> r[i] == SlotAfter(sigs, signers[i], s)
  {
    if signers == [] then []
    else [SlotAfter(sigs, signers[0], s)] + SlotsAfter(sigs, signers[1..], s)
  }

  function AddSignature(tx: Tx, s: Signature): Tx
    requires Covered(tx.cmd)
  {
    tx.(sigs := SlotsAfter(tx.sigs, Signers(tx.cmd), s))
  }

  function AddAll(tx: Tx, ss: seq<Signature>): (r: Tx)
    requires Covered(tx.cmd)
    ensures r.cmd == tx.cmd && r.hash == tx.hash
    decreases |ss|
  {
    if ss == [] then tx else AddAll(AddSignature(tx, ss[0]), ss[1..])
  }

  // ---------- What adding a list of signatures amounts to ----------

  function SignatureFor(ss: seq<Signature>, key: Term): Option<Term> {
    if ss == [] then None
    else if ss[0].pub == key && ss[0].sig != EMPTY then Some(ss[0].sig)
    else SignatureFor(ss[1..], key)
  }

  /** Every signer keeps the filled entry found under its key, and otherwise gets the first signature listed
      for it. */
  function MergedSlot(sigs: seq<Slot>, key: Term, ss: seq<Signature>): Slot {
    var existing := Existing(sigs, key);
    if existing.Some? then existing.value else Slot(Some(key), SignatureFor(ss, key))
  }

  function MergedSlots(sigs: seq<Slot>, signers: seq<Term>, ss: seq<Signature>): (r: seq<Slot>)
    ensures |r| == |signers|
    ensures forall i :: 0 <= i < |r| ==> r[i] == MergedSlot(sigs, signers[i], ss)
  {
    if signers == [] then []
    else [MergedSlot(sigs, signers[0], ss)] + MergedSlots(sigs, signers[1..], ss)
  }

  /** With nothing to add the transaction is returned as it came. */
  function Merged(tx: Tx, ss: seq<Signature>): Tx
    requires Covered(tx.cmd)
  {
    if ss == [] then tx else tx.(sigs := MergedSlots(tx.sigs, Signers(tx.cmd), ss))
  }

  lemma {:induction false} FindAfter(sigs: seq<Slot>, signers: seq<Term>, s: Signature, key: Term)
    requires key in signers
    ensures FindKeyed(SlotsAfter(sigs, signers, s), key) == Some(SlotAfter(sigs, key, s))
  {
    FindHasKey(sigs, signers[0]);
    if signers[0] != key {
      FindAfter(sigs, signers[1..], s, key);
      assert SlotsAfter(sigs, signers, s)[1..] == SlotsAfter(sigs, signers[1..], s);
    }
  }

  lemma {:induction false} FindHasKey(sigs: seq<Slot>, key: Term)
    ensures FindKeyed(sigs, key).Some? ==>
      FindKeyed(sigs, key).value.Slot? && FindKeyed(sigs, key).value.pubKey == Some(key)
  {
    if sigs != [] {
      FindHasKey(sigs[1..], key);
    }
  }

  lemma MergeStep(sigs: seq<Slot>, signers: seq<Term>, ss: seq<Signature>, key: Term)
    requires key in signers && ss != []
    ensures MergedSlot(SlotsAfter(sigs, signers, ss[0]), key, ss[1..]) == MergedSlot(sigs, key, ss)
    ensures |ss| == 1 ==> SlotAfter(sigs, key, ss[0]) == MergedSlot(sigs, key, ss)
  {
    FindAfter(sigs, signers, ss[0], key);
    if |ss| == 1 {
      assert SignatureFor(ss[1..], key).None?;
    }
  }

  /** Adding signatures one after another merges them all at once. */
  lemma {:induction false} AddAllIsMerged(tx: Tx, ss: seq<Signature>)
    requires Covered(tx.cmd)
    ensures AddAll(tx, ss) == Merged(tx, ss)
    decreases |ss|
  {
    if ss != [] {
      var signers := Signers(tx.cmd);
      var next := AddSignature(tx, ss[0]);
      AddAllIsMerged(next, ss[1..]);
      forall i | 0 <= i < |signers|
        ensures AddAll(tx, ss).sigs[i] == MergedSlot(tx.sigs, signers[i], ss)
      {
        MergeStep(tx.sigs, signers, ss, signers[i]);
      }
      assert AddAll(tx, ss).sigs == MergedSlots(tx.sigs, signers, ss);
    }
  }

  lemma {:induction false} SignatureForAppend(a: seq<Signature>, b: seq<Signature>, key: Term)
    ensures SignatureFor(a + b, key) ==
      if SignatureFor(a, key).Some? then SignatureFor(a, key) else SignatureFor(b, key)
  {
    if a == [] {
      assert a + b == b;
    } else {
      assert (a + b)[1..] == a[1..] + b;
      SignatureForAppend(a[1..], b, key);
    }
  }

  lemma {:induction false} SignatureForIff(ss: seq<Signature>, key: Term)
    requires forall s <- ss :: s.sig != EMPTY
    ensures SignatureFor(ss, key).Some? <==> exists s :: s in ss && s.pub == key
    ensures SignatureFor(ss, key).Some? ==> Signature(key, SignatureFor(ss, key).value) in ss
  {
    if ss != [] {
      SignatureForIff(ss[1..], key);
      assert ss == [ss[0]] + ss[1..];
    }
  }

  /** A filled slot comes through a merge unchanged exactly when nothing was merged, or the first entry keyed by its
      own signer is that very entry, or, no filled entry being found under its signer's key, the merge puts the same
      entry there again. An entry without a key, or behind an unfilled entry for the same key, is lost otherwise. */
  lemma MergeKeepsSlotIff(tx: Tx, ss: seq<Signature>, i: nat)
    requires Covered(tx.cmd) && i < |Signers(tx.cmd)| && i < |tx.sigs| && Filled(tx.sigs[i])
    ensures var key := Signers(tx.cmd)[i];
      Merged(tx, ss).sigs[i] == tx.sigs[i] <==>
        || ss == []
        || FindKeyed(tx.sigs, key) == Some(tx.sigs[i])
        || (Existing(tx.sigs, key).None? && tx.sigs[i] == Slot(Some(key), SignatureFor(ss, key)))
  {
    FindHasKey(tx.sigs, Signers(tx.cmd)[i]);
  }

  // ---------- Keypairs ----------

  datatype SeedType = Koala | Chainweaver | Eckowallet | Foreign | Unspecified

  /** A hd-wallet secret, readable with its password. */
  datatype EncryptedKey = EncryptedKey(seed: Term, password: Term)

  datatype Keypair = Keypair(
    publicKey: Option<Term>,
    secretKey: Term,
    seedType: SeedType,
    encryptedSecretKey: Option<EncryptedKey>,
    password: Option<Term>)

  function PubOf(kp: Keypair): Term {
    if kp.publicKey.Some? then kp.publicKey.value else EMPTY
  }

  predicate IsChainweaver(kp: Keypair) {
    && (kp.seedType.Chainweaver? || kp.seedType.Eckowallet?)
    && kp.encryptedSecretKey.Some?
    && kp.password.Some? && kp.password.value != EMPTY
  }

  datatype NaclPair = NaclPair(publicKey: Term, secretKey: Term)

  datatype SignError =
    | NotJson
    | CallbackRejected(pub: Term)
    | BadSeed(pub: Term)
    | KeyMismatch(expected: Term, derived: Term)
    | WrongPassword(pub: Term)

  /** The pasted key's public key; a literal seed must have 64 characters. */
  function Derive(raw: Term): Option<Term> {
    if raw.Lit? && |raw.text| != 64 then None else Some(Pub(raw))
  }

  type Callback = Term -> Option<Term>

  /** The questions put to the callback: each signer that nobody has handled yet, in order, until one fails. */
  datatype Asked = Asked(pairs: seq<NaclPair>, keys: seq<Term>, error: Option<SignError>)

  function Ask(signers: seq<Term>, handled: set<Term>, cb: Callback): Asked {
    if signers == [] then Asked([], [], None)
    else
      var pub := signers[0];
      if pub in handled then Ask(signers[1..], handled, cb)
      else match cb(pub)
        case None => Asked([], [pub], Some(CallbackRejected(pub)))
        case Some(raw) =>
          if Derive(raw).None? then Asked([], [pub], Some(BadSeed(pub)))
          else if Derive(raw).value != pub then Asked([], [pub], Some(KeyMismatch(pub, Derive(raw).value)))
          else
            var rest := Ask(signers[1..], handled + {pub}, cb);
            Asked([NaclPair(pub, raw)] + rest.pairs, [pub] + rest.keys, rest.error)
  }

  function AskAll(signers: seq<Term>, handled: set<Term>, cb: Option<Callback>): Asked {
    if cb.Some? then Ask(signers, handled, cb.value) else Asked([], [], None)
  }

  function PairPubs(pairs: seq<NaclPair>): seq<Term> {
    seq(|pairs|, i requires 0 <= i < |pairs| => pairs[i].publicKey)
  }

  /** The callback is asked at most once per key, only for declared signers without a keypair, and on success for
      each of them; every answer it gives that is used derives to the key asked for. */
  lemma {:induction false} AskedOnce(signers: seq<Term>, handled: set<Term>, cb: Callback)
    ensures var a := Ask(signers, handled, cb);
      && Distinct(a.keys)
      && Elements(a.keys) <= Elements(signers) - handled
      && (a.error.None? ==> Elements(a.keys) == Elements(signers) - handled && PairPubs(a.pairs) == a.keys)
      && (forall p <- a.pairs :: Pub(p.secretKey) == p.publicKey)
    decreases |signers|
  {
    if signers != [] {
      var pub := signers[0];
      assert Elements(signers) == {pub} + Elements(signers[1..]);
      if pub in handled {
        AskedOnce(signers[1..], handled, cb);
      } else {
        var raw := cb(pub);
        if raw.Some? && Derive(raw.value) == Some(pub) {
          AskedOnce(signers[1..], handled + {pub}, cb);
          var rest := Ask(signers[1..], handled + {pub}, cb);
          assert pub !in rest.keys by {
            assert pub in rest.keys ==> pub in Elements(rest.keys);
          }
          assert Elements([pub] + rest.keys) == {pub} + Elements(rest.keys);
        } else {
          assert Elements([pub]) == {pub};
        }
      }
    }
  }

  // ---------- universalSignTransaction ----------

  function NaclPairs(kps: seq<Keypair>, signers: seq<Term>): seq<NaclPair> {
    if kps == [] then []
    else
      var kp := kps[|kps| - 1];
      var front := NaclPairs(kps[..|kps| - 1], signers);
      if PubOf(kp) in signers && !IsChainweaver(kp) then front + [NaclPair(PubOf(kp), kp.secretKey)] else front
  }

  function ChainweaverPairs(kps: seq<Keypair>, signers: seq<Term>): (r: seq<Keypair>)
    ensures forall kp :: kp in r <==> kp in kps && PubOf(kp) in signers && IsChainweaver(kp)
  {
    if kps == [] then []
    else
      var kp := kps[|kps| - 1];
      var front := ChainweaverPairs(kps[..|kps| - 1], signers);
      if PubOf(kp) in signers && IsChainweaver(kp) then front + [kp] else front
  }

  function Handled(kps: seq<Keypair>, signers: seq<Term>): (r: set<Term>)
    ensures forall k :: k in r <==> k in signers && exists kp :: kp in kps && PubOf(kp) == k
  {
    set kp | kp in kps && PubOf(kp) in signers :: PubOf(kp)
  }

  function NaclSignatures(pairs: seq<NaclPair>, hash: Term): (ss: seq<Signature>)
    ensures |ss| == |pairs|
    ensures forall i :: 0 <= i < |ss| ==>
      ss[i] == Signature(pairs[i].publicKey, Sig(pairs[i].secretKey, pairs[i].publicKey, hash))
  {
    if pairs == [] then []
    else [Signature(pairs[0].publicKey, Sig(pairs[0].secretKey, pairs[0].publicKey, hash))]
         + NaclSignatures(pairs[1..], hash)
  }

  function KadenaSign(kp: Keypair, hash: Term): Result<Signature, SignError>
    requires IsChainweaver(kp)
  {
    var enc := kp.encryptedSecretKey.value;
    if enc.password == kp.password.value then Ok(Signature(PubOf(kp), Sig(enc.seed, Pub(enc.seed), hash)))
    else Err(WrongPassword(PubOf(kp)))
  }

  /** The signatures of the hd-wallet keypairs, or the first failure. */
  function WalletSignatures(kps: seq<Keypair>, hash: Term): Result<seq<Signature>, SignError>
    requires forall kp <- kps :: IsChainweaver(kp)
  {
    if kps == [] then Ok([])
    else match KadenaSign(kps[0], hash)
      case Err(e) => Err(e)
      case Ok(s) =>
        match WalletSignatures(kps[1..], hash)
        case Err(e) => Err(e)
        case Ok(ss) => Ok([s] + ss)
  }

  /** All signatures a signing pass adds, in the order they are added. */
  function AllSignatures(tx: Tx, kps: seq<Keypair>, cb: Option<Callback>): Result<seq<Signature>, SignError>
    requires tx.cmd.Text? ==> Covered(tx.cmd)
  {
    if !tx.cmd.Text? then Err(NotJson)
    else
      var signers := Signers(tx.cmd);
      var asked := AskAll(signers, Handled(kps, signers), cb);
      if asked.error.Some? then Err(asked.error.value)
      else
        match WalletSignatures(ChainweaverPairs(kps, signers), tx.hash)
        case Err(e) => Err(e)
        case Ok(wallet) => Ok(NaclSignatures(NaclPairs(kps, signers) + asked.pairs, tx.hash) + wallet)
  }

  function AskedKeys(tx: Tx, kps: seq<Keypair>, cb: Option<Callback>): seq<Term>
    requires tx.cmd.Text? ==> Covered(tx.cmd)
  {
    if tx.cmd.Text? then AskAll(Signers(tx.cmd), Handled(kps, Signers(tx.cmd)), cb).keys else []
  }

  function Signed(tx: Tx, kps: seq<Keypair>, cb: Option<Callback>): Result<Tx, SignError>
    requires tx.cmd.Text? ==> Covered(tx.cmd)
  {
    match AllSignatures(tx, kps, cb)
    case Err(e) => Err(e)
    case Ok(ss) => Ok(Merged(tx, ss))
  }

  /** The pass as the source runs it; its result merges all the signatures at once, and `asked` lists the keys
      put to the callback. */
  method UniversalSignTransaction(tx: Tx, keypairs: seq<Keypair>, onMissingKey: Option<Callback>)
    returns (r: Result<Tx, SignError>, asked: seq<Term>)
    requires tx.cmd.Text? ==> Covered(tx.cmd)
    ensures r == Signed(tx, keypairs, onMissingKey)
    ensures asked == AskedKeys(tx, keypairs, onMissingKey)
  {
    asked := [];
    if !tx.cmd.Text? { return Err(NotJson), []; }
    var signers := Signers(tx.cmd);
    var naclPairs, walletPairs, handled := RouteKeypairs(keypairs, signers);
    ghost var pairs := naclPairs + AskAll(signers, handled, onMissingKey).pairs;
    if onMissingKey.Some? {
      naclPairs, asked, r := AskLoop(signers, handled, onMissingKey.value, naclPairs);
      if r.Err? { return; }
    }
    assert naclPairs == pairs;
    var signed := tx;
    if |naclPairs| > 0 {
      signed := AddAll(signed, NaclSignatures(naclPairs, signed.hash));
    }
    r := AddWalletSignatures(signed, walletPairs);
    if r.Ok? {
      var wallet := WalletSignatures(walletPairs, tx.hash).value;
      AddAllAppend(tx, NaclSignatures(naclPairs, tx.hash), wallet);
      AddAllIsMerged(tx, NaclSignatures(naclPairs, tx.hash) + wallet);
    }
  }

  method RouteKeypairs(keypairs: seq<Keypair>, signers: seq<Term>)
    returns (naclPairs: seq<NaclPair>, walletPairs: seq<Keypair>, handled: set<Term>)
    ensures naclPairs == NaclPairs(keypairs, signers)
    ensures walletPairs == ChainweaverPairs(keypairs, signers)
    ensures handled == Handled(keypairs, signers)
  {
    naclPairs, walletPairs, handled := [], [], {};
    for i := 0 to |keypairs|
      invariant naclPairs == NaclPairs(keypairs[..i], signers)
      invariant walletPairs == ChainweaverPairs(keypairs[..i], signers)
      invariant handled == Handled(keypairs[..i], signers)
    {
      var kp := keypairs[i];
      assert keypairs[..i + 1][..i] == keypairs[..i];
      assert keypairs[..i + 1] == keypairs[..i] + [kp];
      if PubOf(kp) !in signers { continue; }
      handled := handled + {PubOf(kp)};
      if IsChainweaver(kp) {
        walletPairs := walletPairs + [kp];
      } else {
        naclPairs := naclPairs + [NaclPair(PubOf(kp), kp.secretKey)];
      }
    }
    assert keypairs[..|keypairs|] == keypairs;
  }

  lemma {:induction false} AddAllAppend(tx: Tx, a: seq<Signature>, b: seq<Signature>)
    requires Covered(tx.cmd)
    ensures AddAll(tx, a + b) == AddAll(AddAll(tx, a), b)
    decreases |a|
  {
    if a == [] {
      assert a + b == b;
    } else {
      assert (a + b)[1..] == a[1..] + b;
      AddAllAppend(AddSignature(tx, a[0]), a[1..], b);
    }
  }

  method AskLoop(signers: seq<Term>, handledBefore: set<Term>, cb: Callback, pairsBefore: seq<NaclPair>)
    returns (pairs: seq<NaclPair>, asked: seq<Term>, r: Result<Tx, SignError>)
    ensures var a := Ask(signers, handledBefore, cb);
      && asked == a.keys
      && (r.Err? <==> a.error.Some?)
      && (r.Err? ==> r.error == a.error.value)
      && (r.Ok? ==> pairs == pairsBefore + a.pairs)
  {
    pairs, asked := pairsBefore, [];
    var handled := handledBefore;
    for i := 0 to |signers|
      invariant var a, rest := Ask(signers, handledBefore, cb), Ask(signers[i..], handled, cb);
        && a.keys == asked + rest.keys && a.error == rest.error
        && (a.error.None? ==> pairsBefore + a.pairs == pairs + rest.pairs)
    {
      var pub := signers[i];
      assert signers[i..][1..] == signers[i + 1..];
      if pub in handled { continue; }
      asked := asked + [pub];
      var raw := cb(pub);
      if raw.None? { return pairs, asked, Err(CallbackRejected(pub)); }
      var derived := Derive(raw.value);
      if derived.None? { return pairs, asked, Err(BadSeed(pub)); }
      if derived.value != pub { return pairs, asked, Err(KeyMismatch(pub, derived.value)); }
      pairs := pairs + [NaclPair(pub, raw.value)];
      handled := handled + {pub};
    }
    r := Ok(Tx(EMPTY, EMPTY, []));
  }

  method AddWalletSignatures(tx: Tx, kps: seq<Keypair>) returns (r: Result<Tx, SignError>)
    requires Covered(tx.cmd)
    requires forall kp <- kps :: IsChainweaver(kp)
    ensures match WalletSignatures(kps, tx.hash)
            case Err(e) => r == Err(e)
            case Ok(ss) => r == Ok(AddAll(tx, ss))
  {
    var signed := tx;
    for i := 0 to |kps|
      invariant signed.cmd == tx.cmd && signed.hash == tx.hash
      invariant match WalletSignatures(kps[i..], tx.hash)
                case Err(e) => WalletSignatures(kps, tx.hash) == Err(e)
                case Ok(ss) =>
                  && WalletSignatures(kps, tx.hash).Ok?
                  && AddAll(tx, WalletSignatures(kps, tx.hash).value) == AddAll(signed, ss)
    {
      assert kps[i..][1..] == kps[i + 1..];
      var s := KadenaSign(kps[i], signed.hash);
      if s.Err? { return Err(s.error); }
      signed := AddSignature(signed, s.value);
    }
    r := Ok(signed);
  }

  // ---------- The signatures of one pass ----------

  function SignatureBy(kp: Keypair, hash: Term): Signature {
    if IsChainweaver(kp) then
      var seed := kp.encryptedSecretKey.value.seed;
      Signature(PubOf(kp), Sig(seed, Pub(seed), hash))
    else Signature(PubOf(kp), Sig(kp.secretKey, PubOf(kp), hash))
  }

  lemma {:induction false} NaclPairsExact(kps: seq<Keypair>, signers: seq<Term>)
    ensures forall kp <- kps :: PubOf(kp) in signers && !IsChainweaver(kp) ==>
      NaclPair(PubOf(kp), kp.secretKey) in NaclPairs(kps, signers)
    ensures forall p <- NaclPairs(kps, signers) ::
      exists kp <- kps :: PubOf(kp) in signers && !IsChainweaver(kp) && p == NaclPair(PubOf(kp), kp.secretKey)
  {
    if kps != [] {
      var front, last := kps[..|kps| - 1], kps[|kps| - 1];
      NaclPairsExact(front, signers);
      assert kps == front + [last];
      forall p | p in NaclPairs(kps, signers)
        ensures exists kp <- kps :: PubOf(kp) in signers && !IsChainweaver(kp) && p == NaclPair(PubOf(kp), kp.secretKey)
      {
        if p in NaclPairs(front, signers) {
          var kp :| kp in front && PubOf(kp) in signers && !IsChainweaver(kp) && p == NaclPair(PubOf(kp), kp.secretKey);
          assert kp in kps;
        } else {
          assert last in kps;
        }
      }
    }
  }

  lemma {:induction false} WalletExact(kps: seq<Keypair>, hash: Term)
    requires forall kp <- kps :: IsChainweaver(kp)
    requires WalletSignatures(kps, hash).Ok?
    ensures var ss := WalletSignatures(kps, hash).value;
      && |ss| == |kps|
      && forall i :: 0 <= i < |ss| ==> ss[i] == SignatureBy(kps[i], hash)
    ensures forall kp <- kps :: kp.encryptedSecretKey.value.password == kp.password.value
  {
    if kps != [] {
      WalletExact(kps[1..], hash);
      assert kps == [kps[0]] + kps[1..];
    }
  }

  lemma {:induction false} AnswersUsed(signers: seq<Term>, handled: set<Term>, cb: Callback)
    requires Ask(signers, handled, cb).error.None?
    ensures var a := Ask(signers, handled, cb);
      && (forall k <- signers :: k !in handled ==>
            cb(k).Some? && Derive(cb(k).value) == Some(k) && NaclPair(k, cb(k).value) in a.pairs)
      && (forall p <- a.pairs ::
            p.publicKey in signers && p.publicKey !in handled && cb(p.publicKey) == Some(p.secretKey))
    decreases |signers|
  {
    if signers != [] {
      var k := signers[0];
      assert signers == [k] + signers[1..];
      AnswersUsed(signers[1..], if k in handled then handled else handled + {k}, cb);
    }
  }

  predicate FromKeypair(s: Signature, kps: seq<Keypair>, signers: seq<Term>, hash: Term) {
    exists kp <- kps :: PubOf(kp) in signers && s == SignatureBy(kp, hash)
  }

  predicate FromAnswer(s: Signature, kps: seq<Keypair>, signers: seq<Term>, cb: Option<Callback>, hash: Term) {
    && cb.Some? && s.pub in signers && s.pub !in Handled(kps, signers)
    && cb.value(s.pub).Some? && Pub(cb.value(s.pub).value) == s.pub
    && s.sig == Sig(cb.value(s.pub).value, s.pub, hash)
  }

  /** A pass that succeeds adds exactly one kind of signature per declared key: that of a keypair it was given, and
      otherwise one with the key the callback answered. */
  lemma SignaturesExact(tx: Tx, kps: seq<Keypair>, cb: Option<Callback>)
    requires Covered(tx.cmd) && AllSignatures(tx, kps, cb).Ok?
    ensures var ss, signers := AllSignatures(tx, kps, cb).value, Signers(tx.cmd);
      && (forall kp <- kps :: PubOf(kp) in signers ==> SignatureBy(kp, tx.hash) in ss)
      && (forall kp <- kps :: PubOf(kp) in signers && IsChainweaver(kp) ==>
            kp.encryptedSecretKey.value.password == kp.password.value)
      && (forall k <- signers :: cb.Some? && k !in Handled(kps, signers) ==> exists s :: s in ss && s.pub == k)
      && (forall s <- ss :: FromKeypair(s, kps, signers, tx.hash) || FromAnswer(s, kps, signers, cb, tx.hash))
  {
    var signers, hash := Signers(tx.cmd), tx.hash;
    var handled := Handled(kps, signers);
    var own, answered := NaclPairs(kps, signers), AskAll(signers, handled, cb).pairs;
    var wallets := ChainweaverPairs(kps, signers);
    NaclPairsExact(kps, signers);
    WalletExact(wallets, hash);
    if cb.Some? {
      AnswersUsed(signers, handled, cb.value);
    }
    var pairs := own + answered;
    var nacl, wallet := NaclSignatures(pairs, hash), WalletSignatures(wallets, hash).value;
    var ss := nacl + wallet;
    forall p | p in pairs ensures Signature(p.publicKey, Sig(p.secretKey, p.publicKey, hash)) in ss {
      var i :| 0 <= i < |pairs| && pairs[i] == p;
      assert nacl[i] in ss;
    }
    forall kp | kp in wallets ensures SignatureBy(kp, hash) in ss {
      var i :| 0 <= i < |wallets| && wallets[i] == kp;
      assert wallet[i] in ss;
    }
    forall k | k in signers && cb.Some? && k !in handled ensures exists s :: s in ss && s.pub == k {
      assert NaclPair(k, cb.value(k).value) in pairs;
    }
    forall s | s in nacl ensures FromKeypair(s, kps, signers, hash) || FromAnswer(s, kps, signers, cb, hash) {
      var i :| 0 <= i < |nacl| && nacl[i] == s;
      assert pairs[i] in own || pairs[i] in answered;
    }
    forall s | s in wallet ensures FromKeypair(s, kps, signers, hash) {
      var i :| 0 <= i < |wallet| && wallet[i] == s;
      assert wallets[i] in wallets;
    }
  }

  // ---------- Which keypair signs for a key ----------

  /** The first keypair of the key and of the given kind. */
  function FirstOf(kps: seq<Keypair>, key: Term, wallet: bool): Option<Keypair> {
    if kps == [] then None
    else
      var front, last := FirstOf(kps[..|kps| - 1], key, wallet), kps[|kps| - 1];
      if front.None? && PubOf(last) == key && IsChainweaver(last) == wallet then Some(last) else front
  }

  /** Direct keypairs sign before hd-wallet keypairs. */
  function KeypairOf(kps: seq<Keypair>, key: Term): Option<Keypair> {
    var direct := FirstOf(kps, key, false);
    if direct.Some? then direct else FirstOf(kps, key, true)
  }

  lemma {:induction false} FirstOfExact(kps: seq<Keypair>, key: Term, wallet: bool)
    ensures var first := FirstOf(kps, key, wallet);
      && (first.Some? ==> first.value in kps && PubOf(first.value) == key && IsChainweaver(first.value) == wallet)
      && (first.None? ==> forall kp <- kps :: !(PubOf(kp) == key && IsChainweaver(kp) == wallet))
  {
    if kps != [] {
      FirstOfExact(kps[..|kps| - 1], key, wallet);
      assert kps == kps[..|kps| - 1] + [kps[|kps| - 1]];
    }
  }

  /** A keypair signs for a key exactly if there is one. */
  lemma KeypairOfExact(kps: seq<Keypair>, key: Term)
    ensures KeypairOf(kps, key).Some? <==> exists kp :: kp in kps && PubOf(kp) == key
    ensures KeypairOf(kps, key).Some? ==> KeypairOf(kps, key).value in kps && PubOf(KeypairOf(kps, key).value) == key
  {
    FirstOfExact(kps, key, false);
    FirstOfExact(kps, key, true);
  }

  lemma {:induction false} NaclAppend(a: seq<NaclPair>, b: seq<NaclPair>, hash: Term)
    ensures NaclSignatures(a + b, hash) == NaclSignatures(a, hash) + NaclSignatures(b, hash)
  {
    if a == [] {
      assert a + b == b;
    } else {
      assert (a + b)[1..] == a[1..] + b;
      NaclAppend(a[1..], b, hash);
    }
  }

  function SigOf(kp: Option<Keypair>, hash: Term): Option<Term> {
    if kp.Some? then Some(SignatureBy(kp.value, hash).sig) else None
  }

  lemma {:induction false} NaclFirst(kps: seq<Keypair>, signers: seq<Term>, hash: Term, key: Term)
    requires key in signers
    ensures SignatureFor(NaclSignatures(NaclPairs(kps, signers), hash), key) == SigOf(FirstOf(kps, key, false), hash)
  {
    if kps != [] {
      var front, last := kps[..|kps| - 1], kps[|kps| - 1];
      NaclFirst(front, signers, hash, key);
      if PubOf(last) in signers && !IsChainweaver(last) {
        var pairs, one := NaclPairs(front, signers), [NaclPair(PubOf(last), last.secretKey)];
        NaclAppend(pairs, one, hash);
        SignatureForAppend(NaclSignatures(pairs, hash), NaclSignatures(one, hash), key);
        OneSignature(NaclSignatures(one, hash), key);
      }
    }
  }

  lemma OneSignature(ss: seq<Signature>, key: Term)
    requires |ss| == 1 && ss[0].sig != EMPTY
    ensures SignatureFor(ss, key) == if ss[0].pub == key then Some(ss[0].sig) else None
  {
    assert ss[1..] == [];
  }

  function SignaturesBy(kps: seq<Keypair>, hash: Term): seq<Signature> {
    if kps == [] then [] else SignaturesBy(kps[..|kps| - 1], hash) + [SignatureBy(kps[|kps| - 1], hash)]
  }

  lemma {:induction false} SignaturesByAt(kps: seq<Keypair>, hash: Term)
    ensures |SignaturesBy(kps, hash)| == |kps|
    ensures forall i :: 0 <= i < |kps| ==> SignaturesBy(kps, hash)[i] == SignatureBy(kps[i], hash)
  {
    if kps != [] {
      SignaturesByAt(kps[..|kps| - 1], hash);
    }
  }

  lemma NextWallet(wallets: seq<Keypair>, last: Keypair, hash: Term, key: Term)
    ensures SignatureFor(SignaturesBy(wallets + [last], hash), key) ==
      if SignatureFor(SignaturesBy(wallets, hash), key).Some? then SignatureFor(SignaturesBy(wallets, hash), key)
      else if PubOf(last) == key then Some(SignatureBy(last, hash).sig) else None
  {
    assert (wallets + [last])[..|wallets|] == wallets;
    SignatureForAppend(SignaturesBy(wallets, hash), [SignatureBy(last, hash)], key);
    OneSignature([SignatureBy(last, hash)], key);
  }

  lemma {:induction false} WalletFirst(kps: seq<Keypair>, signers: seq<Term>, hash: Term, key: Term)
    requires key in signers
    ensures SignatureFor(SignaturesBy(ChainweaverPairs(kps, signers), hash), key)
         == SigOf(FirstOf(kps, key, true), hash)
  {
    if kps != [] {
      var front, last := kps[..|kps| - 1], kps[|kps| - 1];
      WalletFirst(front, signers, hash, key);
      if PubOf(last) in signers && IsChainweaver(last) {
        NextWallet(ChainweaverPairs(front, signers), last, hash, key);
      }
    }
  }

  /** The signature that a pass without a callback makes for a declared key is that of the key's keypair. */
  lemma SignatureOfKeypair(tx: Tx, kps: seq<Keypair>, key: Term)
    requires Covered(tx.cmd) && key in Signers(tx.cmd) && AllSignatures(tx, kps, None).Ok?
    ensures SignatureFor(AllSignatures(tx, kps, None).value, key) == SigOf(KeypairOf(kps, key), tx.hash)
  {
    var signers, hash := Signers(tx.cmd), tx.hash;
    var pairs, wallets := NaclPairs(kps, signers), ChainweaverPairs(kps, signers);
    WalletExact(wallets, hash);
    SignaturesByAt(wallets, hash);
    assert WalletSignatures(wallets, hash).value == SignaturesBy(wallets, hash);
    assert pairs + [] == pairs;
    SignatureForAppend(NaclSignatures(pairs, hash), SignaturesBy(wallets, hash), key);
    NaclFirst(kps, signers, hash, key);
    WalletFirst(kps, signers, hash, key);
  }
}
