/**
 When the collected keys satisfy the guards: which lists of guards get as far as building a transaction, whether
 every guard among them is satisfied, and whether a guard gets its threshold of signers when keys repeat.
 */
module GuardCoverage {
  import opened Wrappers
  import opened Seqs
  import opened Terms
  import opened Guards
  import opened UniversalSign
  import opened CodexStrategy

  /** Every codex key is a proper key that can be resolved. */
  ghost predicate Usable(r: Resolver) {
    ValidResolver(r) && forall k <- r.codexPubs :: k != EMPTY && r.keyPair(k).Some?
  }

  lemma {:induction false} HeldKeysResolve(r: Resolver, resolved: map<Term, Term>, pubs: seq<Term>)
    requires Usable(r) && forall k <- pubs :: Held(Elements(r.codexPubs), resolved, k)
    ensures KeypairsFor(r, resolved, pubs).Ok?
  {
    if pubs != [] {
      HeldKeysResolve(r, resolved, pubs[..|pubs| - 1]);
      assert pubs[|pubs| - 1] in pubs;
    }
  }

  /** A request gets as far as building exactly when no guard is a smart-account guard out of reach, all guard keys
      can be reached if the callback is missing, and some codex key is left over. Whether the guards are satisfied
      does not matter. */
  lemma AssemblesIff(r: Resolver, q: Request)
    requires Usable(r)
    ensures Assembled(r, q).Ok? <==>
      && (forall g <- q.guards :: !OutOfReach(g, Elements(r.codexPubs)))
      && (r.requestForeignKey.Some? || ForeignProblem(q.guards, Elements(r.codexPubs), q.resolvedForeignKeys).None?)
      && exists k <- r.codexPubs :: k !in GuardPubs(r, q)
  {
    SigmaFiresIff(q.guards, Elements(r.codexPubs));
    SignersHeld(r, q, Guard("", [], None));
    HeldKeysResolve(r, q.resolvedForeignKeys, GuardPubs(r, q));
    CapsKeyIsFree(q.paymentKey, r.codexPubs, Elements(GuardPubs(r, q)));
  }

  lemma OneGuard(r: Resolver, q: Request, g: Guard)
    requires q.guards == [g]
    ensures AllNeeded(q.guards, Elements(r.codexPubs), q.resolvedForeignKeys)
         == Needed(g, Elements(r.codexPubs), q.resolvedForeignKeys)
    ensures forall k <- GuardPubs(r, q) :: k in g.keys && Held(Elements(r.codexPubs), q.resolvedForeignKeys, k)
  {
    var codex, resolved := Elements(r.codexPubs), q.resolvedForeignKeys;
    var guards := q.guards;
    assert guards[..|guards| - 1] == [] && guards[|guards| - 1] == g;
    assert AllNeeded(guards, codex, resolved) == [] + Needed(g, codex, resolved);
    assert [] + Needed(g, codex, resolved) == Needed(g, codex, resolved);
    DedupedExact(Needed(g, codex, resolved));
    assert GuardPubs(r, q) == Deduped(Needed(g, codex, resolved));
    forall k | k in GuardPubs(r, q) ensures k in g.keys && Held(codex, resolved, k) {
      assert k in Elements(GuardPubs(r, q));
      NeededKind(g, codex, resolved, k);
    }
  }

  /** A single guard that is in reach, and does not ask for some codex key, gets as far as building. */
  lemma OneGuardAssembles(r: Resolver, q: Request, g: Guard, free: Term)
    requires Usable(r) && q.guards == [g] && !OutOfReach(g, Elements(r.codexPubs))
    requires r.requestForeignKey.Some?
      || forall k <- g.keys :: Reachable(k, Elements(r.codexPubs), q.resolvedForeignKeys)
    requires free in r.codexPubs && free !in g.keys
    ensures Assembled(r, q).Ok?
  {
    OneGuard(r, q, g);
    AssemblesIff(r, q);
  }

  // ---------- Whether every guard is satisfied ----------

  /** Every list of guards that gets as far as building has only satisfied guards. */
  ghost predicate AlwaysSatisfied(r: Resolver, q: Request) {
    forall guards: seq<Guard> :: Assembled(r, q.(guards := guards)).Ok? ==>
      forall g <- guards :: Satisfied(g, Elements(r.codexPubs), q.resolvedForeignKeys)
  }

  /** A foreign key with an empty pre-resolved entry: it passes the pre-flight, but is not held. */
  predicate EmptyEntry(r: Resolver, q: Request, k: Term) {
    k in q.resolvedForeignKeys && q.resolvedForeignKeys[k] == EMPTY && k !in r.codexPubs
  }

  /** There is no callback, and no empty entry but, in a codex of one key, for Sigma-marked keys. */
  predicate NothingUnheldPasses(r: Resolver, q: Request) {
    && r.requestForeignKey.None?
    && forall k <- q.resolvedForeignKeys :: EmptyEntry(r, q, k) ==> KeyMarked(k) && |r.codexPubs| == 1
  }

  function SignerNamed(n: nat): Term {
    Pub(Text(Num(n)))
  }

  /** No finite set holds all the keys there are. */
  lemma {:induction false} FreshSigner(keys: set<Term>) returns (n: nat)
    ensures forall m: nat :: m >= n ==> SignerNamed(m) !in keys
  {
    if keys == {} {
      n := 0;
    } else {
      var k :| k in keys;
      n := FreshSigner(keys - {k});
      if m: nat :| k == SignerNamed(m) {
        n := if m < n then n else m + 1;
      }
    }
  }

  lemma UnheldGuard(keys: seq<Term>, k: Term, codex: set<Term>, resolved: map<Term, Term>)
    requires k in keys && !Held(codex, resolved, k)
    ensures !Satisfied(Guard("keys-all", keys, None), codex, resolved)
  {
    var i :| 0 <= i < |keys| && keys[i] == k;
    assert keys == keys[..i] + ([k] + keys[i + 1..]);
    FilterAppend(keys[..i], [k] + keys[i + 1..], x => Held(codex, resolved, x));
    assert ([k] + keys[i + 1..])[1..] == keys[i + 1..];
    FilterMembers(keys[..i], x => Held(codex, resolved, x));
    FilterMembers(keys[i + 1..], x => Held(codex, resolved, x));
  }

  /** With a callback, a guard that asks for a key nobody holds gets as far as building. */
  lemma CallbackLetsUnheldPass(r: Resolver, q: Request)
    requires Usable(r) && r.codexPubs != [] && r.requestForeignKey.Some?
    ensures !AlwaysSatisfied(r, q)
  {
    var codex := Elements(r.codexPubs);
    var n := FreshSigner(codex + q.resolvedForeignKeys.Keys);
    var k := SignerNamed(n);
    var g := Guard("keys-all", [k], None);
    assert !SigmaMarked(g) && k !in codex && k !in r.codexPubs && k !in q.resolvedForeignKeys;
    OneGuardAssembles(r, q.(guards := [g]), g, r.codexPubs[0]);
    UnheldGuard([k], k, codex, q.resolvedForeignKeys);
    assert g in [g];
  }

  /** So does a guard that asks for a key with an empty entry, alone if the key is not marked, and otherwise together
      with a codex key while another is left to pay. */
  lemma EmptyEntryPasses(r: Resolver, q: Request, k: Term)
    requires Usable(r) && r.codexPubs != [] && EmptyEntry(r, q, k)
    requires !KeyMarked(k) || |r.codexPubs| != 1
    ensures !AlwaysSatisfied(r, q)
  {
    var codex := Elements(r.codexPubs);
    var keys := if KeyMarked(k) then [r.codexPubs[0], k] else [k];
    var free := if KeyMarked(k) then r.codexPubs[1] else r.codexPubs[0];
    var g := Guard("keys-all", keys, None);
    assert r.codexPubs[0] in codex && free in r.codexPubs && k in keys;
    if KeyMarked(k) {
      assert keys[0] in g.keys && !OutOfReach(g, codex);
    }
    OneGuardAssembles(r, q.(guards := [g]), g, free);
    UnheldGuard(keys, k, codex, q.resolvedForeignKeys);
    assert g in [g];
  }

  /** In a codex of one key, a guard with that key needs it, and then nothing is left to pay for gas. */
  lemma OnlyCodexKey(r: Resolver, q: Request, g: Guard)
    requires Usable(r) && |r.codexPubs| == 1 && g in q.guards && r.codexPubs[0] in g.keys
    ensures r.codexPubs[0] in GuardPubs(r, q)
  {
    var a, codex, resolved := r.codexPubs[0], Elements(r.codexPubs), q.resolvedForeignKeys;
    FilterMembers(g.keys, k => k in codex);
    assert a in CodexKeys(g.keys, codex);
    assert CodexKeys(g.keys, codex)[0] in CodexKeys(g.keys, codex);
    var needed := Needed(g, codex, resolved);
    assert needed[0] == CodexKeys(g.keys, codex)[0] == a && needed[0] in needed;
    NeededSign(r, q, g);
    assert a in Elements(needed);
  }

  lemma KeysHeld(r: Resolver, q: Request, g: Guard, k: Term)
    requires Usable(r) && NothingUnheldPasses(r, q) && Assembled(r, q).Ok? && g in q.guards && k in g.keys
    ensures Held(Elements(r.codexPubs), q.resolvedForeignKeys, k)
  {
    AssemblesIff(r, q);
    assert Reachable(k, Elements(r.codexPubs), q.resolvedForeignKeys);
    if EmptyEntry(r, q, k) {
      assert SigmaMarked(g) && !OutOfReach(g, Elements(r.codexPubs));
      OnlyCodexKey(r, q, g);
      assert false;
    }
  }

  /** Whoever gets to build has only satisfied guards, whatever the guards, if and only if there is no codex key at all,
      or no callback and no empty pre-resolved entry for a foreign key (a Sigma-marked one aside, when there is just
      one codex key). */
  lemma AlwaysSatisfiedIff(r: Resolver, q: Request)
    requires Usable(r)
    ensures AlwaysSatisfied(r, q) <==> r.codexPubs == [] || NothingUnheldPasses(r, q)
  {
    if r.codexPubs != [] && r.requestForeignKey.Some? {
      CallbackLetsUnheldPass(r, q);
    } else if r.codexPubs != [] && !NothingUnheldPasses(r, q) {
      var k :| k in q.resolvedForeignKeys && EmptyEntry(r, q, k) && !(KeyMarked(k) && |r.codexPubs| == 1);
      EmptyEntryPasses(r, q, k);
    } else {
      forall guards: seq<Guard>, g: Guard | Assembled(r, q.(guards := guards)).Ok? && g in guards
        ensures Satisfied(g, Elements(r.codexPubs), q.resolvedForeignKeys)
      {
        var q' := q.(guards := guards);
        AssemblesIff(r, q');
        forall k | k in g.keys ensures Held(Elements(r.codexPubs), q.resolvedForeignKeys, k) {
          KeysHeld(r, q', g, k);
        }
        AllHeldSatisfies(g, Elements(r.codexPubs), q.resolvedForeignKeys);
      }
    }
  }

  /** A guard of which one key is held and one is not: only the held one signs, and the guard passes unsatisfied. */
  lemma PartlyHeldGuardPasses(r: Resolver, q: Request, held: Term, foreign: Term, other: Term)
    requires Usable(r) && r.requestForeignKey.Some?
    requires held in r.codexPubs && other in r.codexPubs && other != held
    requires !Held(Elements(r.codexPubs), q.resolvedForeignKeys, foreign)
    requires q.guards == [Guard("keys-all", [held, foreign], None)]
    ensures Assembled(r, q).Ok? && Elements(GuardPubs(r, q)) == {held}
    ensures !Satisfied(q.guards[0], Elements(r.codexPubs), q.resolvedForeignKeys)
  {
    var g, codex := q.guards[0], Elements(r.codexPubs);
    assert held in g.keys && foreign in g.keys && other in codex && other !in g.keys;
    OneGuardAssembles(r, q, g, other);
    UnheldGuard([held, foreign], foreign, codex, q.resolvedForeignKeys);
    OneGuard(r, q, g);
    SomeoneSigns(r, q, g, held);
    var pubs := GuardPubs(r, q);
    assert pubs[0] in pubs && forall k <- pubs :: k == held;
  }

  lemma SomeoneSigns(r: Resolver, q: Request, g: Guard, held: Term)
    requires q.guards == [g] && held in g.keys && Held(Elements(r.codexPubs), q.resolvedForeignKeys, held)
    ensures GuardPubs(r, q) != []
  {
    var codex, resolved := Elements(r.codexPubs), q.resolvedForeignKeys;
    OneGuard(r, q, g);
    NeededSize(g, codex, resolved);
    FilterMembers(g.keys, k => Held(codex, resolved, k));
    assert held in Filter(g.keys, k => Held(codex, resolved, k));
    var needed := Needed(g, codex, resolved);
    DedupedExact(needed);
    assert needed[0] in Elements(needed);
  }

  // ---------- Repeated keys ----------

  function HeldKeys(g: Guard, codex: set<Term>, resolved: map<Term, Term>): set<Term> {
    set k | k in g.keys && Held(codex, resolved, k)
  }

  predicate Pasted(codex: set<Term>, resolved: map<Term, Term>, k: Term) {
    k !in codex && HasKeyFor(resolved, k)
  }

  /** The turn of a held position to sign: codex keys come first, each kind in the order of the keyset. */
  function Turn(keys: seq<Term>, codex: set<Term>, resolved: map<Term, Term>, j: nat): nat
    requires j < |keys|
  {
    if keys[j] in codex then |Filter(keys[..j], k => k in codex)|
    else |Filter(keys, k => k in codex)| + |Filter(keys[..j], k => Pasted(codex, resolved, k))|
  }

  /** Some held key stands in the keyset a second time, and its turn comes again before the threshold is reached. */
  predicate EarlyRepeat(g: Guard, codex: set<Term>, resolved: map<Term, Term>) {
    exists i, j :: 0 <= i < j < |g.keys| && g.keys[i] == g.keys[j] && Held(codex, resolved, g.keys[j])
      && Turn(g.keys, codex, resolved, j) < GuardThreshold(g)
  }

  function Available(keys: seq<Term>, codex: set<Term>, resolved: map<Term, Term>): seq<Term> {
    Filter(keys, k => k in codex) + Filter(keys, k => Pasted(codex, resolved, k))
  }

  lemma AvailableIs(g: Guard, codex: set<Term>, resolved: map<Term, Term>)
    ensures Needed(g, codex, resolved) == Take(Available(g.keys, codex, resolved), GuardThreshold(g))
  {
    FilterTwice(g.keys, k => k !in codex, k => HasKeyFor(resolved, k), k => Pasted(codex, resolved, k));
  }

  lemma TurnOf(keys: seq<Term>, codex: set<Term>, resolved: map<Term, Term>, j: nat)
    requires j < |keys| && Held(codex, resolved, keys[j])
    ensures var n := Turn(keys, codex, resolved, j);
      n < |Available(keys, codex, resolved)| && Available(keys, codex, resolved)[n] == keys[j]
  {
    if keys[j] in codex {
      FilterIndex(keys, k => k in codex, j);
    } else {
      FilterIndex(keys, k => Pasted(codex, resolved, k), j);
    }
  }

  lemma LaterTurn(keys: seq<Term>, codex: set<Term>, resolved: map<Term, Term>, i: nat, j: nat)
    requires i < j < |keys| && keys[i] == keys[j] && Held(codex, resolved, keys[j])
    ensures Turn(keys, codex, resolved, i) < Turn(keys, codex, resolved, j)
  {
    if keys[j] in codex {
      Later(keys, k => k in codex, i, j);
    } else {
      Later(keys, k => Pasted(codex, resolved, k), i, j);
    }
  }

  lemma Later(keys: seq<Term>, p: Term -> bool, i: nat, j: nat)
    requires i < j <= |keys| && p(keys[i])
    ensures |Filter(keys[..i], p)| < |Filter(keys[..j], p)|
  {
    assert keys[..i + 1] == keys[..i] + [keys[i]];
    FilterAppend(keys[..i], [keys[i]], p);
    FilterPrefix(keys, p, i + 1, j);
  }

  lemma PositionAt(keys: seq<Term>, codex: set<Term>, resolved: map<Term, Term>, n: nat) returns (j: nat)
    requires n < |Available(keys, codex, resolved)|
    ensures j < |keys| && Held(codex, resolved, keys[j]) && Turn(keys, codex, resolved, j) == n
  {
    var own := Filter(keys, k => k in codex);
    if n < |own| {
      j := FilterPosition(keys, k => k in codex, n);
    } else {
      j := FilterPosition(keys, k => Pasted(codex, resolved, k), n - |own|);
    }
  }

  /** The keys a guard asks for repeat exactly when there is an early repeat. */
  lemma NeededRepeatsIff(g: Guard, codex: set<Term>, resolved: map<Term, Term>)
    ensures Distinct(Needed(g, codex, resolved)) <==> !EarlyRepeat(g, codex, resolved)
  {
    var available, needed := Available(g.keys, codex, resolved), Needed(g, codex, resolved);
    AvailableIs(g, codex, resolved);
    if EarlyRepeat(g, codex, resolved) {
      var i, j :| 0 <= i < j < |g.keys| && g.keys[i] == g.keys[j] && Held(codex, resolved, g.keys[j])
        && Turn(g.keys, codex, resolved, j) < GuardThreshold(g);
      LaterTurn(g.keys, codex, resolved, i, j);
      TurnOf(g.keys, codex, resolved, i);
      TurnOf(g.keys, codex, resolved, j);
      assert needed[Turn(g.keys, codex, resolved, i)] == needed[Turn(g.keys, codex, resolved, j)];
    }
    if !Distinct(needed) {
      var m, n :| 0 <= m < n < |needed| && needed[m] == needed[n];
      var i := PositionAt(g.keys, codex, resolved, m);
      var j := PositionAt(g.keys, codex, resolved, n);
      TurnOf(g.keys, codex, resolved, i);
      TurnOf(g.keys, codex, resolved, j);
      if j < i {
        LaterTurn(g.keys, codex, resolved, j, i);
      }
    }
  }

  /** The guard gets its threshold of different signers in every list of guards it belongs to, whatever the overlaps. */
  ghost predicate ReachedInEveryList(r: Resolver, q: Request, g: Guard) {
    forall guards: seq<Guard> :: g in guards ==> |SignersOf(g, r, q.(guards := guards))| >= GuardThreshold(g)
  }

  ghost predicate ReachedInSomeList(r: Resolver, q: Request, g: Guard) {
    exists guards: seq<Guard> :: g in guards && |SignersOf(g, r, q.(guards := guards))| >= GuardThreshold(g)
  }

  lemma AloneSigners(r: Resolver, q: Request, g: Guard)
    requires q.guards == [g]
    ensures SignersOf(g, r, q) == Elements(Needed(g, Elements(r.codexPubs), q.resolvedForeignKeys))
  {
    OneGuard(r, q, g);
    NeededSign(r, q, g);
    DedupedExact(Needed(g, Elements(r.codexPubs), q.resolvedForeignKeys));
    forall k | k in SignersOf(g, r, q) ensures k in Needed(g, Elements(r.codexPubs), q.resolvedForeignKeys) {
      assert k in Elements(GuardPubs(r, q));
    }
  }

  /** A guard, with repeated keys or without, is sure to get its threshold of different signers exactly when it is
      satisfied and no held key's turn comes again before the threshold. */
  lemma ReachedInEveryListIff(r: Resolver, q: Request, g: Guard)
    ensures ReachedInEveryList(r, q, g) <==>
      && Satisfied(g, Elements(r.codexPubs), q.resolvedForeignKeys)
      && !EarlyRepeat(g, Elements(r.codexPubs), q.resolvedForeignKeys)
  {
    var codex, resolved := Elements(r.codexPubs), q.resolvedForeignKeys;
    NeededRepeatsIff(g, codex, resolved);
    AloneReachedIff(g, codex, resolved);
    AloneSigners(r, q.(guards := [g]), g);
    assert g in [g];
    forall guards: seq<Guard> | g in guards
      ensures |SignersOf(g, r, q.(guards := guards))| >= |Elements(Needed(g, codex, resolved))|
    {
      NeededSign(r, q.(guards := guards), g);
      SubsetSize(Elements(Needed(g, codex, resolved)), SignersOf(g, r, q.(guards := guards)));
    }
  }

  /** A guard can get its threshold of different signers, with the help of other guards, exactly when that many of its
      different keys are held. */
  lemma ReachedInSomeListIff(r: Resolver, q: Request, g: Guard)
    ensures ReachedInSomeList(r, q, g) <==>
      |HeldKeys(g, Elements(r.codexPubs), q.resolvedForeignKeys)| >= GuardThreshold(g)
  {
    var codex, resolved := Elements(r.codexPubs), q.resolvedForeignKeys;
    forall guards: seq<Guard> | g in guards
      ensures |SignersOf(g, r, q.(guards := guards))| <= |HeldKeys(g, codex, resolved)|
    {
      SignersHeld(r, q.(guards := guards), g);
      SubsetSize(SignersOf(g, r, q.(guards := guards)), HeldKeys(g, codex, resolved));
    }
    var helper := Guard("keys-all", Filter(g.keys, k => Held(codex, resolved, k)), None);
    var guards := [g, helper];
    assert g in guards;
    HelperSigners(r, q.(guards := guards), g, helper);
    SubsetSize(HeldKeys(g, codex, resolved), SignersOf(g, r, q.(guards := guards)));
  }

  /** Beside a keys-all guard of its held keys, all the held keys of a guard sign. */
  lemma HelperSigners(r: Resolver, q: Request, g: Guard, helper: Guard)
    requires var held := Filter(g.keys, k => Held(Elements(r.codexPubs), q.resolvedForeignKeys, k));
      helper == Guard("keys-all", held, None)
    requires q.guards == [g, helper]
    ensures HeldKeys(g, Elements(r.codexPubs), q.resolvedForeignKeys) <= SignersOf(g, r, q)
  {
    var codex, resolved := Elements(r.codexPubs), q.resolvedForeignKeys;
    FilterMembers(g.keys, k => Held(codex, resolved, k));
    AllHeldNeeded(helper, codex, resolved);
    assert helper in q.guards;
    NeededSign(r, q, helper);
    forall k | k in HeldKeys(g, codex, resolved) ensures k in SignersOf(g, r, q) {
      assert k in helper.keys && k in Elements(Needed(helper, codex, resolved));
    }
  }

  lemma AllHeldNeeded(g: Guard, codex: set<Term>, resolved: map<Term, Term>)
    requires g.pred == "keys-all" && forall k <- g.keys :: Held(codex, resolved, k)
    ensures forall k <- g.keys :: k in Needed(g, codex, resolved)
  {
    FilterAll(g.keys, k => Held(codex, resolved, k));
    SignableIsHeldCount(g.keys, codex, resolved);
    FilterMembers(g.keys, k => k in codex);
    FilterMembers(g.keys, k => k !in codex);
    FilterMembers(ForeignKeys(g.keys, codex), k => HasKeyFor(resolved, k));
    var own, others := CodexKeys(g.keys, codex), ResolvedKeys(g.keys, codex, resolved);
    assert |own + others| == |g.keys| == GuardThreshold(g);
    assert Needed(g, codex, resolved) == own + others;
    forall k | k in g.keys ensures k in own || k in others {
      assert Held(codex, resolved, k);
    }
  }
}
