/** Keyset guards: thresholds of predicates, analysis against the keys that are held, and the gas-payer key. */
module Guards {
  import opened Wrappers
  import opened Seqs
  import opened Terms

  const STOIC := "stoa-ns.stoic-predicates."

  const FIXED: map<string, nat> :=
    map[STOIC + "keys-1" := 1, STOIC + "keys-3" := 3, STOIC + "keys-4" := 4]

  const M_OF_N: map<string, nat> :=
    map[STOIC + "keys-2-of-3" := 2, STOIC + "keys-3-of-5" := 3, STOIC + "keys-4-of-7" := 4, STOIC + "keys-5-of-9" := 5]

  const PERCENT: map<string, nat> :=
    map[STOIC + "at-least-51pct" := 51, STOIC + "at-least-60pct" := 60, STOIC + "at-least-66pct" := 66,
        STOIC + "at-least-75pct" := 75, STOIC + "at-least-90pct" := 90]

  function Min(a: int, b: int): int {
    if a <= b then a else b
  }

  function Max(a: int, b: int): int {
    if a <= b then b else a
  }

  /** None stands for the thrown `UnknownPredicateError`. Percentages are exact rationals. */
  function ComputeThreshold(pred: string, keyCount: nat): (t: Option<nat>)
    ensures t.Some? && keyCount > 0 ==> 1 <= t.value <= keyCount
    ensures keyCount == 0 ==> t == Some(0)
  {
    if keyCount == 0 then Some(0)
    else if pred == "keys-any" then Some(1)
    else if pred == "keys-all" then Some(keyCount)
    else if pred == "keys-2" then Some(Min(2, keyCount))
    else if pred in FIXED then Some(Min(FIXED[pred], keyCount))
    else if pred in M_OF_N then Some(Min(M_OF_N[pred], keyCount))
    else if pred in PERCENT then Some((keyCount * PERCENT[pred] + 99) / 100)
    else if pred == STOIC + "all-but-one" then Some(Max(1, keyCount - 1))
    else if pred == STOIC + "all-but-two" then Some(Max(1, keyCount - 2))
    else None
  }

  lemma PercentNames(pred: string)
    requires pred in PERCENT
    ensures pred !in FIXED && pred !in M_OF_N && pred != "keys-any" && pred != "keys-all" && pred != "keys-2"
  {
    assert pred[25] == 'a';
    assert forall p <- FIXED :: p[25] == 'k';
    assert forall p <- M_OF_N :: p[25] == 'k';
  }

  /** The threshold of a percentage predicate is the least number of signatures that reaches the percentage. */
  lemma PercentThresholdIsLeast(pred: string, keyCount: nat, signed: nat)
    requires pred in PERCENT && keyCount > 0
    ensures ComputeThreshold(pred, keyCount).Some?
    ensures signed >= ComputeThreshold(pred, keyCount).value <==> signed * 100 >= keyCount * PERCENT[pred]
  {
    PercentNames(pred);
  }

  datatype Guard = Guard(pred: string, keys: seq<Term>, keysetRef: Option<string>)

  datatype GuardAnalysis = GuardAnalysis(
    threshold: nat,
    predicateRecognized: bool,
    codexKeys: seq<Term>,
    foreignKeys: seq<Term>,
    resolvedForeignKeys: seq<Term>,
    signable: nat,
    satisfied: bool,
    neededMore: nat)

  /** `!!resolved[k]`: an entry holding the empty string does not count. */
  predicate HasKeyFor(resolved: map<Term, Term>, k: Term) {
    k in resolved && resolved[k] != EMPTY
  }

  predicate Held(codex: set<Term>, resolved: map<Term, Term>, k: Term) {
    k in codex || HasKeyFor(resolved, k)
  }

  function GuardThreshold(g: Guard): (t: nat)
    ensures g.keys != [] ==> 1 <= t <= |g.keys|
    ensures g.keys == [] ==> t == 0
  {
    match ComputeThreshold(g.pred, |g.keys|)
    case Some(t) => t
    case None => |g.keys|
  }

  function CodexKeys(keys: seq<Term>, codex: set<Term>): seq<Term> {
    Filter(keys, k => k in codex)
  }

  function ForeignKeys(keys: seq<Term>, codex: set<Term>): seq<Term> {
    Filter(keys, k => k !in codex)
  }

  function ResolvedKeys(keys: seq<Term>, codex: set<Term>, resolved: map<Term, Term>): seq<Term> {
    Filter(ForeignKeys(keys, codex), k => HasKeyFor(resolved, k))
  }

  /** The number of positions of the keyset whose key can sign. */
  function HeldCount(keys: seq<Term>, codex: set<Term>, resolved: map<Term, Term>): nat {
    |Filter(keys, k => Held(codex, resolved, k))|
  }

  /** The guard's signable count is exactly the number of its positions whose key is held; it is satisfied
      exactly when that reaches the threshold, and what is still needed is exactly the shortfall. */
  method AnalyzeGuard(g: Guard, codex: set<Term>, resolved: map<Term, Term>) returns (a: GuardAnalysis)
    ensures a.threshold == GuardThreshold(g)
    ensures a.predicateRecognized <==> g.keys == [] || ComputeThreshold(g.pred, |g.keys|).Some?
    ensures a.codexKeys == CodexKeys(g.keys, codex)
    ensures a.foreignKeys == ForeignKeys(g.keys, codex)
    ensures a.resolvedForeignKeys == ResolvedKeys(g.keys, codex, resolved)
    ensures a.signable == HeldCount(g.keys, codex, resolved)
    ensures a.satisfied <==> HeldCount(g.keys, codex, resolved) >= GuardThreshold(g)
    ensures a.neededMore == Max(0, GuardThreshold(g) - HeldCount(g.keys, codex, resolved))
  {
    if g.keys == [] {
      return GuardAnalysis(0, true, [], [], [], 0, true, 0);
    }
    var threshold, recognized := |g.keys|, false;
    var computed := ComputeThreshold(g.pred, |g.keys|);
    if computed.Some? {
      threshold, recognized := computed.value, true;
    }
    var codexKeys: seq<Term>, foreignKeys: seq<Term> := [], [];
    for i := 0 to |g.keys|
      invariant codexKeys == CodexKeys(g.keys[..i], codex)
      invariant foreignKeys == ForeignKeys(g.keys[..i], codex)
    {
      assert g.keys[..i + 1] == g.keys[..i] + [g.keys[i]];
      FilterAppend(g.keys[..i], [g.keys[i]], k => k in codex);
      FilterAppend(g.keys[..i], [g.keys[i]], k => k !in codex);
      if g.keys[i] in codex {
        codexKeys := codexKeys + [g.keys[i]];
      } else {
        foreignKeys := foreignKeys + [g.keys[i]];
      }
    }
    assert g.keys[..|g.keys|] == g.keys;
    var resolvedKeys := Filter(foreignKeys, k => HasKeyFor(resolved, k));
    var signable := |codexKeys| + |resolvedKeys|;
    SignableIsHeldCount(g.keys, codex, resolved);
    a := GuardAnalysis(threshold, recognized, codexKeys, foreignKeys, resolvedKeys, signable, signable >= threshold,
                       if threshold > signable then threshold - signable else 0);
  }

  lemma {:induction false} SignableIsHeldCount(keys: seq<Term>, codex: set<Term>, resolved: map<Term, Term>)
    ensures |CodexKeys(keys, codex)| + |ResolvedKeys(keys, codex, resolved)| == HeldCount(keys, codex, resolved)
  {
    if keys != [] {
      SignableIsHeldCount(keys[1..], codex, resolved);
      var head := if keys[0] in codex then [] else [keys[0]];
      FilterAppend(head, ForeignKeys(keys[1..], codex), k => HasKeyFor(resolved, k));
    }
  }

  predicate Satisfied(g: Guard, codex: set<Term>, resolved: map<Term, Term>) {
    HeldCount(g.keys, codex, resolved) >= GuardThreshold(g)
  }

  /** Holding more keys never makes a satisfied guard unsatisfied. */
  lemma SatisfiedMonotone(g: Guard, codex: set<Term>, resolved: map<Term, Term>,
                          codex': set<Term>, resolved': map<Term, Term>)
    requires forall k <- g.keys :: Held(codex, resolved, k) ==> Held(codex', resolved', k)
    ensures Satisfied(g, codex, resolved) ==> Satisfied(g, codex', resolved')
  {
    FilterLonger(g.keys, k => Held(codex, resolved, k), k => Held(codex', resolved', k));
  }

  /** A guard all of whose keys are held is satisfied. */
  lemma AllHeldSatisfies(g: Guard, codex: set<Term>, resolved: map<Term, Term>)
    requires forall k <- g.keys :: Held(codex, resolved, k)
    ensures Satisfied(g, codex, resolved)
  {
    FilterAll(g.keys, k => Held(codex, resolved, k));
  }

  datatype Caps = Caps(key: Option<Term>, isPaymentKey: bool, impossible: bool)

  /** The codex keys are given in the insertion order of the JavaScript set. The payment key is taken when it
      is a free codex key; otherwise the first free codex key is; there is none exactly when every codex key
      is needed for pure signing, and only then can the choice be reported impossible. */
  method SelectCapsSigningKey(payment: Option<Term>, codexPubs: seq<Term>, pure: set<Term>) returns (c: Caps)
    ensures c == ChosenCaps(payment, codexPubs, pure)
  {
    if payment.Some? && payment.value != EMPTY && payment.value in codexPubs && payment.value !in pure {
      return Caps(payment, true, false);
    }
    for i := 0 to |codexPubs|
      invariant forall j :: 0 <= j < i ==> codexPubs[j] in pure
    {
      if codexPubs[i] !in pure {
        FirstFreeAt(codexPubs, pure, i);
        return Caps(Some(codexPubs[i]), false, false);
      }
    }
    NoneFree(codexPubs, pure);
    if payment.Some? && payment.value != EMPTY && payment.value in pure {
      return Caps(None, true, true);
    }
    c := Caps(None, false, false);
  }

  function FirstFree(codexPubs: seq<Term>, pure: set<Term>): Option<Term> {
    if codexPubs == [] then None
    else if codexPubs[0] !in pure then Some(codexPubs[0])
    else FirstFree(codexPubs[1..], pure)
  }

  function ChosenCaps(payment: Option<Term>, codexPubs: seq<Term>, pure: set<Term>): Caps {
    var paying := payment.Some? && payment.value != EMPTY;
    if paying && payment.value in codexPubs && payment.value !in pure then Caps(payment, true, false)
    else
      var free := FirstFree(codexPubs, pure);
      var impossible := free.None? && paying && payment.value in pure;
      Caps(free, impossible, impossible)
  }

  lemma {:induction false} FirstFreeAt(codexPubs: seq<Term>, pure: set<Term>, i: nat)
    requires i < |codexPubs| && codexPubs[i] !in pure
    requires forall j :: 0 <= j < i ==> codexPubs[j] in pure
    ensures FirstFree(codexPubs, pure) == Some(codexPubs[i])
  {
    if i > 0 {
      FirstFreeAt(codexPubs[1..], pure, i - 1);
    }
  }

  lemma {:induction false} NoneFree(codexPubs: seq<Term>, pure: set<Term>)
    requires forall k <- codexPubs :: k in pure
    ensures FirstFree(codexPubs, pure).None?
  {
    if codexPubs != [] {
      NoneFree(codexPubs[1..], pure);
    }
  }

  lemma {:induction false} FirstFreeIsFree(codexPubs: seq<Term>, pure: set<Term>)
    ensures match FirstFree(codexPubs, pure)
            case Some(k) => k in codexPubs && k !in pure
            case None => forall k <- codexPubs :: k in pure
  {
    if codexPubs != [] {
      FirstFreeIsFree(codexPubs[1..], pure);
    }
  }

  /** The payment key is chosen whenever it is a free codex key; otherwise the first free codex key is; none is chosen
      exactly when there is no free codex key; and the choice is reported impossible exactly when, on top of that,
      the payment key itself is needed for pure signing. */
  lemma CapsKeyIsFree(payment: Option<Term>, codexPubs: seq<Term>, pure: set<Term>)
    ensures var c := ChosenCaps(payment, codexPubs, pure);
      && (c.key.Some? ==> c.key.value in codexPubs && c.key.value !in pure)
      && (c.key.None? <==> forall k <- codexPubs :: k in pure)
      && (c.key.Some? && c.isPaymentKey ==> c.key == payment)
      && (payment.Some? && payment.value != EMPTY && payment.value in codexPubs && payment.value !in pure ==>
           c.key == payment && c.isPaymentKey)
      && (c.key.Some? && !c.isPaymentKey ==>
           exists i: nat :: i < |codexPubs| && c.key == Some(codexPubs[i])
             && forall j :: 0 <= j < i ==> codexPubs[j] in pure)
      && (c.impossible <==> c.key.None? && payment.Some? && payment.value != EMPTY && payment.value in pure)
  {
    FirstFreeIsFree(codexPubs, pure);
    if FirstFree(codexPubs, pure).Some? {
      var i := FirstFreeIndex(codexPubs, pure);
    }
  }

  lemma {:induction false} FirstFreeIndex(codexPubs: seq<Term>, pure: set<Term>) returns (i: nat)
    requires FirstFree(codexPubs, pure).Some?
    ensures i < |codexPubs| && FirstFree(codexPubs, pure) == Some(codexPubs[i])
    ensures forall j :: 0 <= j < i ==> codexPubs[j] in pure
  {
    i := 0;
    if codexPubs[0] in pure {
      i := FirstFreeIndex(codexPubs[1..], pure);
      i := i + 1;
    }
  }
}
