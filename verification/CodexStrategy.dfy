/**
 Signing with a codex of keys: the keys every guard needs are collected without repetition, a free key pays for
 gas, the transaction is built, simulated, rebuilt with the calibrated gas limit, signed and submitted.
 */
module CodexStrategy {
  import opened Wrappers
  import opened Seqs
  import opened Terms
  import opened Guards
  import opened UniversalSign
  import opened PartialSig
  import Gas

  /** The codex keys come in the insertion order of the JavaScript set. A keypair that cannot be resolved is
      None; `requestForeignKey` is optional. */
  datatype Resolver = Resolver(
    codexPubs: seq<Term>,
    keyPair: Term -> Option<Keypair>,
    requestForeignKey: Option<Callback>)

  /** A set lists no key twice, and the keypair handed out for a key is a keypair of that key. */
  ghost predicate ValidResolver(r: Resolver) {
    && Distinct(r.codexPubs)
    && forall k :: r.keyPair(k).Some? ==> r.keyPair(k).value.publicKey == Some(k)
  }

  datatype Ctx = Ctx(gasLimit: int, capsKeyPub: Term, guardPubs: seq<Term>, gasPriceAnu: nat, creationTime: int)

  datatype Request = Request(
    build: Ctx -> Tx,
    guards: seq<Guard>,
    paymentKey: Option<Term>,
    resolvedForeignKeys: map<Term, Term>,
    extraSigners: seq<Keypair>)

  ghost predicate ValidRequest(q: Request) {
    && (forall ctx :: q.build(ctx).cmd.Text? ==> Covered(q.build(ctx).cmd))
    && (forall kp <- q.extraSigners :: kp.publicKey.Some?)
  }

  /** What the chain answers within, or not within, its deadline. */
  datatype Simulation = SimulationTimedOut | SimulationRaised | SimulationFailed | Simulated(gas: Option<Gas.Measured>)

  datatype Submission = SubmitTimedOut | SubmitRaised | Accepted(requestKey: Term)

  datatype Chain = Chain(nowS: int, nodeLimit: int, simulation: Simulation, submission: Submission)

  datatype Surface = InKeysetRef | InKeys | InBoth

  datatype Refusal =
    | SmartAccountGuard(surface: Surface)
    | NoForeignResolver(pub: Term)
    | KeyNotResolved(pub: Term)
    | PaymentKeyNeededByGuard
    | NoFreeCodexKey
    | SimTimeout
    | SimRaised
    | SimFailure
    | NotSigned(error: SignError)
    | SubmissionTimeout
    | SubmissionRaised

  /** What one run did: the contexts of its two builds, the keys asked for, and the transaction submitted. */
  datatype Run = Run(
    simulated: Option<Ctx>,
    rebuilt: Option<Ctx>,
    asked: seq<Term>,
    submitted: Option<Tx>,
    outcome: Result<Term, Refusal>)

  // ---------- Smart-account guards ----------

  const SIGMA := "\U{03A3}."

  predicate RefMarked(g: Guard) {
    g.keysetRef.Some? && Contains(g.keysetRef.value, SIGMA)
  }

  predicate KeyMarked(k: Term) {
    k.Lit? && Contains(k.text, SIGMA)
  }

  predicate KeysMarked(g: Guard) {
    exists k <- g.keys :: KeyMarked(k)
  }

  predicate SigmaMarked(g: Guard) {
    RefMarked(g) || KeysMarked(g)
  }

  function SurfaceOf(g: Guard): (surface: Surface)
    requires SigmaMarked(g)
    ensures surface.InKeysetRef? ==> !KeysMarked(g)
    ensures surface.InKeys? ==> !RefMarked(g)
    ensures surface.InBoth? ==> RefMarked(g) && KeysMarked(g)
  {
    if RefMarked(g) && KeysMarked(g) then InBoth else if RefMarked(g) then InKeysetRef else InKeys
  }

  /** A marked guard none of whose keys is in the codex. */
  predicate OutOfReach(g: Guard, codex: set<Term>) {
    SigmaMarked(g) && forall k <- g.keys :: k !in codex
  }

  function FirstOutOfReach(guards: seq<Guard>, codex: set<Term>): (first: Option<Guard>)
    ensures first.Some? ==> first.value in guards && OutOfReach(first.value, codex)
  {
    if guards == [] then None
    else if OutOfReach(guards[0], codex) then Some(guards[0])
    else FirstOutOfReach(guards[1..], codex)
  }

  /** The test through the analysis of the guard comes down to the absence of codex keys, because a non-empty
      keyset always has a threshold of at least one. */
  method CheckSigma(guards: seq<Guard>, codex: set<Term>) returns (problem: Option<Surface>)
    ensures match FirstOutOfReach(guards, codex)
            case None => problem.None?
            case Some(g) => problem == Some(SurfaceOf(g))
  {
    for i := 0 to |guards|
      invariant FirstOutOfReach(guards, codex) == FirstOutOfReach(guards[i..], codex)
    {
      var g := guards[i];
      assert guards[i..][1..] == guards[i + 1..];
      if SigmaMarked(g) {
        var analysis := AnalyzeGuard(g, codex, map[]);
        CodexKeysEmpty(g.keys, codex);
        if |analysis.codexKeys| == 0 && (|g.keys| == 0 || !analysis.satisfied) {
          return Some(if RefMarked(g) && KeysMarked(g) then InBoth else if RefMarked(g) then InKeysetRef else InKeys);
        }
      }
    }
    problem := None;
  }

  lemma CodexKeysEmpty(keys: seq<Term>, codex: set<Term>)
    ensures CodexKeys(keys, codex) == [] <==> forall k <- keys :: k !in codex
    ensures CodexKeys(keys, codex) == [] ==> HeldCount(keys, codex, map[]) == 0
  {
    FilterMembers(keys, k => k in codex);
    if k :| k in keys && k in codex {
      assert k in CodexKeys(keys, codex);
    } else {
      FilterNone(keys, k => k in codex);
      FilterNone(keys, k => Held(codex, map[], k));
    }
  }

  /** The check fires exactly when some Sigma-marked guard has no codex key. */
  lemma {:induction false} SigmaFiresIff(guards: seq<Guard>, codex: set<Term>)
    ensures FirstOutOfReach(guards, codex).Some? <==>
      exists g <- guards :: SigmaMarked(g) && forall k <- g.keys :: k !in codex
  {
    if guards != [] {
      SigmaFiresIff(guards[1..], codex);
      assert guards == [guards[0]] + guards[1..];
      if g :| g in guards && OutOfReach(g, codex) && g != guards[0] {
        assert g in guards[1..];
      }
    }
  }

  // ---------- Foreign keys without a resolver ----------

  predicate Reachable(k: Term, codex: set<Term>, resolved: map<Term, Term>) {
    k in codex || k in resolved
  }

  function FirstUnreachable(keys: seq<Term>, codex: set<Term>, resolved: map<Term, Term>): (r: Option<Term>)
    ensures r.None? <==> forall k <- keys :: Reachable(k, codex, resolved)
    ensures r.Some? ==> r.value in keys && !Reachable(r.value, codex, resolved)
  {
    if keys == [] then None
    else if !Reachable(keys[0], codex, resolved) then Some(keys[0])
    else FirstUnreachable(keys[1..], codex, resolved)
  }

  function ForeignProblem(guards: seq<Guard>, codex: set<Term>, resolved: map<Term, Term>): (r: Option<Term>)
    ensures r.None? <==> forall g <- guards :: forall k <- g.keys :: Reachable(k, codex, resolved)
  {
    if guards == [] then None
    else
      var first := FirstUnreachable(guards[0].keys, codex, resolved);
      if first.Some? then first else ForeignProblem(guards[1..], codex, resolved)
  }

  method CheckForeign(guards: seq<Guard>, codex: set<Term>, resolved: map<Term, Term>) returns (problem: Option<Term>)
    ensures problem == ForeignProblem(guards, codex, resolved)
  {
    for i := 0 to |guards|
      invariant ForeignProblem(guards, codex, resolved) == ForeignProblem(guards[i..], codex, resolved)
    {
      assert guards[i..][1..] == guards[i + 1..];
      var keys := guards[i].keys;
      for j := 0 to |keys|
        invariant FirstUnreachable(keys, codex, resolved) == FirstUnreachable(keys[j..], codex, resolved)
      {
        assert keys[j..][1..] == keys[j + 1..];
        if keys[j] in codex { continue; }
        if keys[j] in resolved { continue; }
        return Some(keys[j]);
      }
    }
    problem := None;
  }

  // ---------- Collecting the pure signers ----------

  /** The keys one guard asks to sign: codex keys before pre-resolved ones, up to the threshold. */
  function Needed(g: Guard, codex: set<Term>, resolved: map<Term, Term>): seq<Term> {
    Take(CodexKeys(g.keys, codex) + ResolvedKeys(g.keys, codex, resolved), GuardThreshold(g))
  }

  function AllNeeded(guards: seq<Guard>, codex: set<Term>, resolved: map<Term, Term>): seq<Term> {
    if guards == [] then []
    else AllNeeded(guards[..|guards| - 1], codex, resolved) + Needed(guards[|guards| - 1], codex, resolved)
  }

  /** The first occurrence of every element. */
  function Deduped(xs: seq<Term>): seq<Term> {
    if xs == [] then [] else AddNew(Deduped(xs[..|xs| - 1]), xs[|xs| - 1])
  }

  function AddNew(ys: seq<Term>, x: Term): seq<Term> {
    if x in ys then ys else ys + [x]
  }

  lemma {:induction false} DedupedExact(xs: seq<Term>)
    ensures Distinct(Deduped(xs)) && Elements(Deduped(xs)) == Elements(xs)
  {
    if xs != [] {
      var front := xs[..|xs| - 1];
      DedupedExact(front);
      assert xs == front + [xs[|xs| - 1]];
      assert forall x :: x in Deduped(front) <==> x in Elements(Deduped(front));
      assert Elements(Deduped(xs)) == Elements(front) + {xs[|xs| - 1]};
    }
  }

  /** A codex key is resolved; any other key collected here was pre-resolved by the caller. */
  function KeypairFor(r: Resolver, resolved: map<Term, Term>, pub: Term): Option<Keypair> {
    if pub in r.codexPubs then r.keyPair(pub)
    else if pub in resolved then Some(Keypair(Some(pub), resolved[pub], Foreign, None, None))
    else None
  }

  /** The keypairs of the given keys, or the first key without one. */
  function KeypairsFor(r: Resolver, resolved: map<Term, Term>, pubs: seq<Term>): (kps: Result<seq<Keypair>, Refusal>)
    ensures kps.Ok? ==> |kps.value| == |pubs|
    ensures kps.Ok? ==> forall i :: 0 <= i < |pubs| ==> KeypairFor(r, resolved, pubs[i]) == Some(kps.value[i])
  {
    if pubs == [] then Ok([])
    else
      match KeypairsFor(r, resolved, pubs[..|pubs| - 1])
      case Err(e) => Err(e)
      case Ok(front) =>
        var last := pubs[|pubs| - 1];
        match KeypairFor(r, resolved, last)
        case None => Err(KeyNotResolved(last))
        case Some(kp) => Ok(front + [kp])
  }

  function GuardPubs(r: Resolver, q: Request): seq<Term> {
    Deduped(AllNeeded(q.guards, Elements(r.codexPubs), q.resolvedForeignKeys))
  }

  lemma {:induction false} DedupedPrefix(xs: seq<Term>, ys: seq<Term>)
    ensures Deduped(xs) <= Deduped(xs + ys)
  {
    if ys == [] {
      assert xs + ys == xs;
    } else {
      DedupedPrefix(xs, ys[..|ys| - 1]);
      assert (xs + ys)[..|xs + ys| - 1] == xs + ys[..|ys| - 1];
    }
  }

  lemma {:induction false} FirstErrorStays(r: Resolver, resolved: map<Term, Term>, xs: seq<Term>, zs: seq<Term>)
    requires xs <= zs && KeypairsFor(r, resolved, xs).Err?
    ensures KeypairsFor(r, resolved, zs) == KeypairsFor(r, resolved, xs)
    decreases |zs|
  {
    if |xs| < |zs| {
      FirstErrorStays(r, resolved, xs, zs[..|zs| - 1]);
    } else {
      assert xs == zs;
    }
  }

  lemma {:induction false} NeededPrefix(guards: seq<Guard>, i: nat, codex: set<Term>, resolved: map<Term, Term>)
    requires i <= |guards|
    ensures AllNeeded(guards[..i], codex, resolved) <= AllNeeded(guards, codex, resolved)
    decreases |guards|
  {
    if i == |guards| {
      assert guards[..i] == guards;
    } else {
      NeededPrefix(guards[..|guards| - 1], i, codex, resolved);
      assert guards[..|guards| - 1][..i] == guards[..i];
    }
  }

  /** A key that a guard needs is pre-resolved exactly when it is not in the codex. */
  lemma NeededKind(g: Guard, codex: set<Term>, resolved: map<Term, Term>, k: Term)
    requires k in Needed(g, codex, resolved)
    ensures k in g.keys && Held(codex, resolved, k)
    ensures k in ResolvedKeys(g.keys, codex, resolved) <==> k !in codex
  {
    var available := CodexKeys(g.keys, codex) + ResolvedKeys(g.keys, codex, resolved);
    assert k in available;
    FilterMembers(g.keys, k => k in codex);
    FilterMembers(g.keys, k => k !in codex);
    FilterMembers(ForeignKeys(g.keys, codex), k => HasKeyFor(resolved, k));
  }

  predicate Collected(r: Resolver, resolved: map<Term, Term>, xs: seq<Term>, kps: seq<Keypair>, seen: set<Term>) {
    KeypairsFor(r, resolved, Deduped(xs)) == Ok(kps) && seen == Elements(Deduped(xs))
  }

  lemma CollectStep(r: Resolver, resolved: map<Term, Term>, xs: seq<Term>, pub: Term, kps: seq<Keypair>,
                    seen: set<Term>)
    requires Collected(r, resolved, xs, kps, seen)
    ensures pub in seen ==> Collected(r, resolved, xs + [pub], kps, seen)
    ensures pub !in seen ==>
      match KeypairFor(r, resolved, pub)
      case Some(kp) => Collected(r, resolved, xs + [pub], kps + [kp], seen + {pub})
      case None => KeypairsFor(r, resolved, Deduped(xs + [pub])) == Err(KeyNotResolved(pub))
  {
    var pubs := Deduped(xs);
    assert (xs + [pub])[..|xs|] == xs;
    assert Deduped(xs + [pub]) == AddNew(pubs, pub);
    ElementsAppend(pubs, pub);
    NextKeypair(r, resolved, pubs, pub);
  }

  lemma NextKeypair(r: Resolver, resolved: map<Term, Term>, pubs: seq<Term>, pub: Term)
    requires KeypairsFor(r, resolved, pubs).Ok?
    ensures KeypairsFor(r, resolved, pubs + [pub]) ==
      match KeypairFor(r, resolved, pub)
      case None => Err(KeyNotResolved(pub))
      case Some(kp) => Ok(KeypairsFor(r, resolved, pubs).value + [kp])
  {
    assert (pubs + [pub])[..|pubs|] == pubs;
  }

  lemma CollectStops(r: Resolver, resolved: map<Term, Term>, xs: seq<Term>, zs: seq<Term>)
    requires xs <= zs && KeypairsFor(r, resolved, Deduped(xs)).Err?
    ensures KeypairsFor(r, resolved, Deduped(zs)) == KeypairsFor(r, resolved, Deduped(xs))
  {
    DedupedPrefix(xs, zs[|xs|..]);
    assert xs + zs[|xs|..] == zs;
    FirstErrorStays(r, resolved, Deduped(xs), Deduped(zs));
  }

  lemma NeededStep(guards: seq<Guard>, i: nat, codex: set<Term>, resolved: map<Term, Term>)
    requires i < |guards|
    ensures AllNeeded(guards[..i + 1], codex, resolved)
         == AllNeeded(guards[..i], codex, resolved) + Needed(guards[i], codex, resolved)
    ensures AllNeeded(guards[..i + 1], codex, resolved) <= AllNeeded(guards, codex, resolved)
  {
    assert guards[..i + 1][..i] == guards[..i];
    NeededPrefix(guards, i + 1, codex, resolved);
  }

  method CollectGuardKeypairs(r: Resolver, guards: seq<Guard>, resolved: map<Term, Term>)
    returns (kps: Result<seq<Keypair>, Refusal>, pure: set<Term>)
    ensures var pubs := Deduped(AllNeeded(guards, Elements(r.codexPubs), resolved));
      && kps == KeypairsFor(r, resolved, pubs)
      && (kps.Ok? ==> pure == Elements(pubs))
  {
    var codex := Elements(r.codexPubs);
    var guardKeypairs: seq<Keypair>, seen: set<Term> := [], {};
    pure := {};
    for i := 0 to |guards|
      invariant Collected(r, resolved, AllNeeded(guards[..i], codex, resolved), guardKeypairs, seen) && pure == seen
    {
      var analysis := AnalyzeGuard(guards[i], codex, resolved);
      var needed := Take(analysis.codexKeys + analysis.resolvedForeignKeys, analysis.threshold);
      NeededStep(guards, i, codex, resolved);
      ghost var before := AllNeeded(guards[..i], codex, resolved);
      forall k | k in needed ensures k in ResolvedKeys(guards[i].keys, codex, resolved) <==> k !in r.codexPubs
        ensures k !in r.codexPubs ==> k in resolved
      {
        NeededKind(guards[i], codex, resolved, k);
      }
      kps, seen, pure :=
        CollectFrom(r, resolved, analysis.resolvedForeignKeys, needed, before, guardKeypairs, seen, pure);
      if kps.Err? {
        CollectStops(r, resolved, before + needed, AllNeeded(guards, codex, resolved));
        return;
      }
      guardKeypairs := kps.value;
    }
    assert guards[..|guards|] == guards;
    kps := Ok(guardKeypairs);
  }

  /** The inner loop: the keys of one guard. */
  method CollectFrom(r: Resolver, resolved: map<Term, Term>, resolvedForeignKeys: seq<Term>, needed: seq<Term>,
                     ghost before: seq<Term>, guardKeypairs: seq<Keypair>, seenBefore: set<Term>, pureBefore: set<Term>)
    returns (kps: Result<seq<Keypair>, Refusal>, seen: set<Term>, pure: set<Term>)
    requires forall k <- needed :: k in resolvedForeignKeys <==> k !in r.codexPubs
    requires forall k <- needed :: k !in r.codexPubs ==> k in resolved
    requires Collected(r, resolved, before, guardKeypairs, seenBefore) && pureBefore == seenBefore
    ensures kps == KeypairsFor(r, resolved, Deduped(before + needed))
    ensures kps.Ok? ==> Collected(r, resolved, before + needed, kps.value, seen) && pure == seen
  {
    seen, pure := seenBefore, pureBefore;
    var all := guardKeypairs;
    ghost var done := before;
    for j := 0 to |needed|
      invariant done == before + needed[..j]
      invariant Collected(r, resolved, done, all, seen) && pure == seen
    {
      var pub := needed[j];
      CollectStep(r, resolved, done, pub, all, seen);
      TakeNext(before, needed, j);
      done := done + [pub];
      if pub in seen { continue; }
      seen := seen + {pub};
      pure := pure + {pub};
      var kp: Option<Keypair>;
      if pub in resolvedForeignKeys {
        kp := Some(Keypair(Some(pub), resolved[pub], Foreign, None, None));
      } else {
        kp := r.keyPair(pub);
      }
      if kp.None? {
        CollectStops(r, resolved, done, before + needed);
        return Err(KeyNotResolved(pub)), seen, pure;
      }
      all := all + [kp.value];
    }
    assert done == before + needed;
    kps := Ok(all);
  }

  // ---------- Signing ----------

  function Ids(kps: seq<Keypair>): set<Option<Term>> {
    set kp | kp in kps :: kp.publicKey
  }

  /** The first keypair of every public key. */
  function OnePerKey(kps: seq<Keypair>): seq<Keypair> {
    if kps == [] then []
    else
      var front := OnePerKey(kps[..|kps| - 1]);
      if kps[|kps| - 1].publicKey in Ids(front) then front else front + [kps[|kps| - 1]]
  }

  lemma {:induction false} OnePerKeyExact(kps: seq<Keypair>)
    ensures var ys := OnePerKey(kps);
      && Ids(ys) == Ids(kps)
      && (forall kp <- ys :: kp in kps)
      && (forall a, b :: a in ys && b in ys && a.publicKey == b.publicKey ==> a == b)
      && (kps != [] ==> kps[0] in ys)
  {
    if kps != [] {
      var front, last := kps[..|kps| - 1], kps[|kps| - 1];
      OnePerKeyExact(front);
      assert kps == front + [last];
      assert Ids(kps) == Ids(front) + {last.publicKey};
      var ys := OnePerKey(kps);
      if last.publicKey !in Ids(OnePerKey(front)) {
        assert Ids(ys) == Ids(OnePerKey(front)) + {last.publicKey};
      }
    }
  }

  method Sign(r: Resolver, tx: Tx, capsKey: Keypair, guardKeypairs: seq<Keypair>)
    returns (signed: Result<Tx, SignError>, asked: seq<Term>)
    requires tx.cmd.Text? ==> Covered(tx.cmd)
    ensures signed == Signed(tx, OnePerKey([capsKey] + guardKeypairs), r.requestForeignKey)
    ensures asked == AskedKeys(tx, OnePerKey([capsKey] + guardKeypairs), r.requestForeignKey)
  {
    var kps := [capsKey] + guardKeypairs;
    var deduped := Dedup(kps);
    signed, asked := UniversalSignTransaction(tx, deduped, r.requestForeignKey);
  }

  method Dedup(kps: seq<Keypair>) returns (deduped: seq<Keypair>)
    ensures deduped == OnePerKey(kps)
  {
    deduped := [];
    var seen: set<Option<Term>> := {};
    for i := 0 to |kps|
      invariant deduped == OnePerKey(kps[..i]) && seen == Ids(deduped)
    {
      assert kps[..i + 1][..i] == kps[..i];
      if kps[i].publicKey in seen { continue; }
      seen := seen + {kps[i].publicKey};
      deduped := deduped + [kps[i]];
    }
    assert kps[..|kps|] == kps;
  }

  // ---------- execute ----------

  const SIMULATION_GAS := 500_000

  datatype Team = Team(guardKeypairs: seq<Keypair>, caps: Keypair)

  /** Who signs: everything `execute` decides before it first builds the transaction. */
  function Assembled(r: Resolver, q: Request): Result<Team, Refusal> {
    var codex := Elements(r.codexPubs);
    var marked := FirstOutOfReach(q.guards, codex);
    if marked.Some? then Err(SmartAccountGuard(SurfaceOf(marked.value)))
    else
      var foreign := ForeignProblem(q.guards, codex, q.resolvedForeignKeys);
      if r.requestForeignKey.None? && foreign.Some? then Err(NoForeignResolver(foreign.value))
      else
        match KeypairsFor(r, q.resolvedForeignKeys, GuardPubs(r, q))
        case Err(e) => Err(e)
        case Ok(kps) =>
          var caps := ChosenCaps(q.paymentKey, r.codexPubs, Elements(GuardPubs(r, q)));
          if caps.impossible then Err(PaymentKeyNeededByGuard)
          else if caps.key.None? || caps.key.value == EMPTY then Err(NoFreeCodexKey)
          else
            match r.keyPair(caps.key.value)
            case None => Err(KeyNotResolved(caps.key.value))
            case Some(kp) => Ok(Team(kps, kp))
  }

  function PubsOf(kps: seq<Keypair>): (pubs: seq<Term>) {
    seq(|kps|, i requires 0 <= i < |kps| => PubOf(kps[i]))
  }

  function CtxFor(t: Team, c: Chain, gasLimit: int): Ctx {
    Ctx(gasLimit, PubOf(t.caps), PubsOf(t.guardKeypairs), Gas.MinGasPriceAnu(c.nowS), c.nowS)
  }

  function LimitFor(c: Chain): int
    requires c.simulation.Simulated?
  {
    var gas := if c.simulation.gas.Some? then c.simulation.gas.value else Gas.Finite(SIMULATION_GAS as real);
    Gas.CalculateAutoGasLimit(gas, c.nodeLimit)
  }

  /** The keypairs a transaction is signed with: one per key. */
  function SigningKeypairs(t: Team, q: Request): seq<Keypair> {
    OnePerKey([t.caps] + (t.guardKeypairs + q.extraSigners))
  }

  function Executed(r: Resolver, q: Request, c: Chain): Run
    requires ValidRequest(q)
  {
    match Assembled(r, q)
    case Err(e) => Run(None, None, [], None, Err(e))
    case Ok(t) =>
      var first := Some(CtxFor(t, c, SIMULATION_GAS));
      match c.simulation
      case SimulationTimedOut => Run(first, None, [], None, Err(SimTimeout))
      case SimulationRaised => Run(first, None, [], None, Err(SimRaised))
      case SimulationFailed => Run(first, None, [], None, Err(SimFailure))
      case Simulated(_) =>
        var ctx := CtxFor(t, c, LimitFor(c));
        var kps := SigningKeypairs(t, q);
        var asked := AskedKeys(q.build(ctx), kps, r.requestForeignKey);
        match Signed(q.build(ctx), kps, r.requestForeignKey)
        case Err(e) => Run(first, Some(ctx), asked, None, Err(NotSigned(e)))
        case Ok(tx) => Run(first, Some(ctx), asked, Some(tx), Submitted(c.submission))
  }

  function Submitted(s: Submission): Result<Term, Refusal> {
    match s
    case SubmitTimedOut => Err(SubmissionTimeout)
    case SubmitRaised => Err(SubmissionRaised)
    case Accepted(requestKey) => Ok(requestKey)
  }

  method Execute(r: Resolver, q: Request, c: Chain) returns (run: Run)
    requires ValidRequest(q)
    ensures run == Executed(r, q, c)
  {
    run := Run(None, None, [], None, Err(NoFreeCodexKey));
    var codex := Elements(r.codexPubs);
    var sigma := CheckSigma(q.guards, codex);
    if sigma.Some? { return run.(outcome := Err(SmartAccountGuard(sigma.value))); }
    if r.requestForeignKey.None? {
      var foreign := CheckForeign(q.guards, codex, q.resolvedForeignKeys);
      if foreign.Some? { return run.(outcome := Err(NoForeignResolver(foreign.value))); }
    }
    var kps, pure := CollectGuardKeypairs(r, q.guards, q.resolvedForeignKeys);
    if kps.Err? { return run.(outcome := Err(kps.error)); }
    var guardKeypairs := kps.value;
    var caps := SelectCapsSigningKey(q.paymentKey, r.codexPubs, pure);
    if caps.impossible { return run.(outcome := Err(PaymentKeyNeededByGuard)); }
    if caps.key.None? || caps.key.value == EMPTY { return run; }
    var capsKeypair := r.keyPair(caps.key.value);
    if capsKeypair.None? { return run.(outcome := Err(KeyNotResolved(caps.key.value))); }
    var creationTime, gasPrice := c.nowS, Gas.MinGasPriceAnu(c.nowS);
    var guardPubs := PubsOf(guardKeypairs);
    var ctx := Ctx(SIMULATION_GAS, PubOf(capsKeypair.value), guardPubs, gasPrice, creationTime);
    run := run.(simulated := Some(ctx));
    var gas: Gas.Measured;
    match c.simulation {
      case SimulationTimedOut => return run.(outcome := Err(SimTimeout));
      case SimulationRaised => return run.(outcome := Err(SimRaised));
      case SimulationFailed => return run.(outcome := Err(SimFailure));
      case Simulated(measured) => gas := if measured.Some? then measured.value else Gas.Finite(SIMULATION_GAS as real);
    }
    ctx := ctx.(gasLimit := Gas.CalculateAutoGasLimit(gas, c.nodeLimit));
    run := run.(rebuilt := Some(ctx));
    var signed, asked := Sign(r, q.build(ctx), capsKeypair.value, guardKeypairs + q.extraSigners);
    run := run.(asked := asked);
    if signed.Err? { return run.(outcome := Err(NotSigned(signed.error))); }
    run := run.(submitted := Some(signed.value), outcome := Submitted(c.submission));
  }

  // ---------- Who signs ----------

  lemma AssembledParts(r: Resolver, q: Request)
    requires Assembled(r, q).Ok?
    ensures var t, caps := Assembled(r, q).value, ChosenCaps(q.paymentKey, r.codexPubs, Elements(GuardPubs(r, q)));
      && KeypairsFor(r, q.resolvedForeignKeys, GuardPubs(r, q)) == Ok(t.guardKeypairs)
      && caps.key.Some? && r.keyPair(caps.key.value) == Some(t.caps)
  {
  }

  lemma GuardKeypairsOf(r: Resolver, resolved: map<Term, Term>, pubs: seq<Term>, kps: seq<Keypair>)
    requires ValidResolver(r) && KeypairsFor(r, resolved, pubs) == Ok(kps)
    ensures PubsOf(kps) == pubs && forall kp <- kps :: kp.publicKey.Some?
  {
    forall i | 0 <= i < |pubs| ensures kps[i].publicKey == Some(pubs[i]) {
      assert KeypairFor(r, resolved, pubs[i]) == Some(kps[i]);
    }
  }

  /** The guard keypairs are those of the collected keys, each once; the gas payer is a codex key outside them. */
  lemma TeamIsDisjoint(r: Resolver, q: Request)
    requires ValidResolver(r) && Assembled(r, q).Ok?
    ensures var t := Assembled(r, q).value;
      && PubsOf(t.guardKeypairs) == GuardPubs(r, q) && Distinct(PubsOf(t.guardKeypairs))
      && (forall kp <- t.guardKeypairs :: kp.publicKey.Some?)
      && t.caps.publicKey.Some? && PubOf(t.caps) in r.codexPubs && PubOf(t.caps) !in GuardPubs(r, q)
  {
    var t, pubs := Assembled(r, q).value, GuardPubs(r, q);
    AssembledParts(r, q);
    DedupedExact(AllNeeded(q.guards, Elements(r.codexPubs), q.resolvedForeignKeys));
    CapsKeyIsFree(q.paymentKey, r.codexPubs, Elements(pubs));
    GuardKeypairsOf(r, q.resolvedForeignKeys, pubs, t.guardKeypairs);
  }

  lemma {:induction false} NeededCollected(guards: seq<Guard>, codex: set<Term>, resolved: map<Term, Term>, g: Guard)
    requires g in guards
    ensures Elements(Needed(g, codex, resolved)) <= Elements(AllNeeded(guards, codex, resolved))
  {
    var front := guards[..|guards| - 1];
    assert guards == front + [guards[|guards| - 1]];
    if g in front {
      NeededCollected(front, codex, resolved, g);
    }
  }

  lemma {:induction false} CollectedHeld(guards: seq<Guard>, codex: set<Term>, resolved: map<Term, Term>)
    ensures forall k <- AllNeeded(guards, codex, resolved) :: Held(codex, resolved, k)
  {
    if guards != [] {
      CollectedHeld(guards[..|guards| - 1], codex, resolved);
      forall k | k in Needed(guards[|guards| - 1], codex, resolved) ensures Held(codex, resolved, k) {
        NeededKind(guards[|guards| - 1], codex, resolved, k);
      }
    }
  }

  /** The keys of a guard among the collected ones. */
  function SignersOf(g: Guard, r: Resolver, q: Request): set<Term> {
    set k | k in g.keys && k in GuardPubs(r, q)
  }

  lemma NeededSize(g: Guard, codex: set<Term>, resolved: map<Term, Term>)
    ensures |Needed(g, codex, resolved)| == Min(HeldCount(g.keys, codex, resolved), GuardThreshold(g))
    ensures Distinct(g.keys) ==> Distinct(Needed(g, codex, resolved))
  {
    SignableIsHeldCount(g.keys, codex, resolved);
    if Distinct(g.keys) {
      FilterDistinct(g.keys, k => k in codex);
      FilterDistinct(g.keys, k => k !in codex);
      FilterDistinct(ForeignKeys(g.keys, codex), k => HasKeyFor(resolved, k));
      FilterMembers(g.keys, k => k in codex);
      FilterMembers(g.keys, k => k !in codex);
      FilterMembers(ForeignKeys(g.keys, codex), k => HasKeyFor(resolved, k));
      DistinctAppend(CodexKeys(g.keys, codex), ResolvedKeys(g.keys, codex, resolved));
    }
  }

  /** A pre-resolved key is asked to sign for a guard only after all of the guard's codex keys. */
  lemma CodexKeysFirst(g: Guard, codex: set<Term>, resolved: map<Term, Term>, k: Term)
    requires k in Needed(g, codex, resolved) && k !in codex
    ensures forall c <- g.keys :: c in codex ==> c in Needed(g, codex, resolved)
  {
    var own, others := CodexKeys(g.keys, codex), ResolvedKeys(g.keys, codex, resolved);
    var needed := Needed(g, codex, resolved);
    FilterMembers(g.keys, k => k in codex);
    var i :| 0 <= i < |needed| && needed[i] == k;
    assert forall j :: 0 <= j < |own| && j < |needed| ==> needed[j] == own[j] && own[j] in own;
    assert i >= |own|;
    forall c | c in own ensures c in needed {
      var j :| 0 <= j < |own| && own[j] == c;
      assert needed[j] == c;
    }
  }

  /** The keys a guard needs sign for it in every list of guards it belongs to. */
  lemma NeededSign(r: Resolver, q: Request, g: Guard)
    requires g in q.guards
    ensures Elements(Needed(g, Elements(r.codexPubs), q.resolvedForeignKeys)) <= SignersOf(g, r, q)
  {
    var codex, resolved := Elements(r.codexPubs), q.resolvedForeignKeys;
    DedupedExact(AllNeeded(q.guards, codex, resolved));
    NeededCollected(q.guards, codex, resolved, g);
    forall k | k in Needed(g, codex, resolved) ensures k in g.keys && k in GuardPubs(r, q) {
      NeededKind(g, codex, resolved, k);
      assert k in Elements(Needed(g, codex, resolved)) && k in Elements(GuardPubs(r, q));
    }
  }

  /** Only held keys sign. */
  lemma SignersHeld(r: Resolver, q: Request, g: Guard)
    ensures forall k <- GuardPubs(r, q) :: Held(Elements(r.codexPubs), q.resolvedForeignKeys, k)
    ensures forall k <- SignersOf(g, r, q) :: k in g.keys && Held(Elements(r.codexPubs), q.resolvedForeignKeys, k)
  {
    var codex, resolved := Elements(r.codexPubs), q.resolvedForeignKeys;
    DedupedExact(AllNeeded(q.guards, codex, resolved));
    CollectedHeld(q.guards, codex, resolved);
    forall k | k in GuardPubs(r, q) ensures Held(codex, resolved, k) {
      assert k in Elements(GuardPubs(r, q));
    }
  }

  /** However the guards overlap, a guard without repeated keys gets at least its threshold of signers exactly
      when it is satisfied. */
  lemma ThresholdReachedIff(r: Resolver, q: Request, g: Guard)
    requires g in q.guards && Distinct(g.keys)
    ensures |SignersOf(g, r, q)| >= GuardThreshold(g) <==> Satisfied(g, Elements(r.codexPubs), q.resolvedForeignKeys)
  {
    var codex, resolved := Elements(r.codexPubs), q.resolvedForeignKeys;
    var needed := Needed(g, codex, resolved);
    NeededSize(g, codex, resolved);
    DistinctSize(needed);
    NeededSign(r, q, g);
    SubsetSize(Elements(needed), SignersOf(g, r, q));
    var held := Filter(g.keys, k => Held(codex, resolved, k));
    FilterMembers(g.keys, k => Held(codex, resolved, k));
    SignersHeld(r, q, g);
    SubsetSize(SignersOf(g, r, q), Elements(held));
    ElementsSize(held);
  }

  /** Taken alone, a guard of any shape gets its threshold of different signers exactly when it is satisfied and the
      keys it asks for do not repeat. */
  lemma AloneReachedIff(g: Guard, codex: set<Term>, resolved: map<Term, Term>)
    ensures |Elements(Needed(g, codex, resolved))| >= GuardThreshold(g) <==>
      Satisfied(g, codex, resolved) && Distinct(Needed(g, codex, resolved))
  {
    var needed := Needed(g, codex, resolved);
    NeededSize(g, codex, resolved);
    ElementsSize(needed);
    if |Elements(needed)| == |needed| {
      SizeDistinct(needed);
    } else if Distinct(needed) {
      DistinctSize(needed);
    }
  }

  /** A keyset that lists one codex key twice counts as satisfied, but only one signer is collected for it. */
  lemma RepeatedKeyFallsShort(k: Term)
    ensures var g := Guard("keys-2", [k, k], None);
      && Satisfied(g, {k}, map[])
      && |Elements(Needed(g, {k}, map[]))| < GuardThreshold(g)
  {
    var g := Guard("keys-2", [k, k], None);
    AllHeldSatisfies(g, {k}, map[]);
    NeededSize(g, {k}, map[]);
    var needed := Needed(g, {k}, map[]);
    NeededKind(g, {k}, map[], needed[0]);
    NeededKind(g, {k}, map[], needed[1]);
    AloneReachedIff(g, {k}, map[]);
  }

  /** Without `requestForeignKey`, and with a key behind every pre-resolved foreign entry, a run that gets as far as
      building has only satisfied guards. */
  lemma EveryGuardSatisfied(r: Resolver, q: Request, g: Guard)
    requires Assembled(r, q).Ok? && r.requestForeignKey.None?
    requires forall k <- q.resolvedForeignKeys :: q.resolvedForeignKeys[k] == EMPTY ==> k in r.codexPubs
    requires g in q.guards
    ensures Satisfied(g, Elements(r.codexPubs), q.resolvedForeignKeys)
  {
    AllHeldSatisfies(g, Elements(r.codexPubs), q.resolvedForeignKeys);
  }

  /** With `requestForeignKey`, or with empty pre-resolved entries, satisfaction is never tested: guards none of
      whose keys are held are passed over, and the team consists of the gas payer alone. */
  lemma UnsatisfiedGuardsPass(r: Resolver, q: Request)
    requires ValidResolver(r) && r.codexPubs != [] && EMPTY !in r.codexPubs
    requires forall k <- r.codexPubs :: r.keyPair(k).Some?
    requires forall g <- q.guards :: g.keys != [] && !SigmaMarked(g)
    requires forall g <- q.guards :: forall k <- g.keys :: !Held(Elements(r.codexPubs), q.resolvedForeignKeys, k)
    requires r.requestForeignKey.Some? || forall g <- q.guards :: forall k <- g.keys :: k in q.resolvedForeignKeys
    ensures Assembled(r, q).Ok? && Assembled(r, q).value.guardKeypairs == []
    ensures forall g <- q.guards :: !Satisfied(g, Elements(r.codexPubs), q.resolvedForeignKeys)
  {
    var codex, resolved := Elements(r.codexPubs), q.resolvedForeignKeys;
    SigmaFiresIff(q.guards, codex);
    forall g | g in q.guards ensures Needed(g, codex, resolved) == [] && !Satisfied(g, codex, resolved) {
      FilterNone(g.keys, k => Held(codex, resolved, k));
      NeededSize(g, codex, resolved);
    }
    NothingNeeded(q.guards, codex, resolved);
    CapsKeyIsFree(q.paymentKey, r.codexPubs, {});
    assert GuardPubs(r, q) == [] && r.codexPubs[0] in r.codexPubs;
    assert Elements<Term>([]) == {};
  }

  lemma {:induction false} NothingNeeded(guards: seq<Guard>, codex: set<Term>, resolved: map<Term, Term>)
    requires forall g <- guards :: Needed(g, codex, resolved) == []
    ensures AllNeeded(guards, codex, resolved) == []
  {
    if guards != [] {
      assert guards[|guards| - 1] in guards;
      NothingNeeded(guards[..|guards| - 1], codex, resolved);
    }
  }
}
