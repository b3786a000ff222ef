/** What every named predicate demands of a guard, in the positions of its keyset whose key is held. */
module GuardPredicates {
  import opened Wrappers
  import opened Seqs
  import opened Terms
  import opened Guards

  const PREFIX := "stoa-ns.stoic-predicates."

  /** The positions whose key can sign. */
  function Positions(g: Guard, codex: set<Term>, resolved: map<Term, Term>): set<int> {
    set i | 0 <= i < |g.keys| && (g.keys[i] in codex || (g.keys[i] in resolved && resolved[g.keys[i]] != EMPTY))
  }

  lemma {:induction false} CountPositions(keys: seq<Term>, codex: set<Term>, resolved: map<Term, Term>)
    ensures |Positions(Guard("", keys, None), codex, resolved)| == HeldCount(keys, codex, resolved)
  {
    if keys != [] {
      var front, last := keys[..|keys| - 1], keys[|keys| - 1];
      CountPositions(front, codex, resolved);
      assert keys == front + [last];
      FilterAppend(front, [last], k => Held(codex, resolved, k));
      LastPosition(front, last, codex, resolved);
    }
  }

  lemma LastPosition(front: seq<Term>, last: Term, codex: set<Term>, resolved: map<Term, Term>)
    ensures Positions(Guard("", front + [last], None), codex, resolved) ==
      Positions(Guard("", front, None), codex, resolved) + (if Held(codex, resolved, last) then {|front|} else {})
  {
  }

  /** Satisfaction counts positions against the threshold of the predicate; an unknown one asks for all. */
  lemma SatisfiedCounts(g: Guard, codex: set<Term>, resolved: map<Term, Term>)
    requires g.keys != []
    ensures Satisfied(g, codex, resolved) <==>
      |Positions(g, codex, resolved)| >=
        match ComputeThreshold(g.pred, |g.keys|)
        case Some(t) => t
        case None => |g.keys|
  {
    CountPositions(g.keys, codex, resolved);
    assert Positions(g, codex, resolved) == Positions(Guard("", g.keys, None), codex, resolved);
  }

  lemma AllPositions(g: Guard, codex: set<Term>, resolved: map<Term, Term>)
    ensures |Positions(g, codex, resolved)| <= |g.keys|
    ensures |Positions(g, codex, resolved)| == |g.keys| <==> forall k <- g.keys :: Held(codex, resolved, k)
    ensures |Positions(g, codex, resolved)| > 0 <==> exists k <- g.keys :: Held(codex, resolved, k)
  {
    var all := Upto(|g.keys|);
    var held := Positions(g, codex, resolved);
    SubsetSize(held, all);
    if |held| == |g.keys| {
      SameSize(held, all);
      forall k | k in g.keys ensures Held(codex, resolved, k) {
        var i :| 0 <= i < |g.keys| && g.keys[i] == k;
        assert i in all;
      }
    }
    if forall k <- g.keys :: Held(codex, resolved, k) {
      assert forall i :: 0 <= i < |g.keys| ==> g.keys[i] in g.keys;
      assert held == all;
    }
    if k :| k in g.keys && Held(codex, resolved, k) {
      var i :| 0 <= i < |g.keys| && g.keys[i] == k;
      assert i in held;
    }
    if held != {} {
      var i :| i in held;
      assert g.keys[i] in g.keys;
    }
  }

  function Upto(n: nat): (s: set<int>)
    ensures |s| == n && forall i :: i in s <==> 0 <= i < n
  {
    if n == 0 then {} else Upto(n - 1) + {n - 1}
  }

  lemma SameSize(a: set<int>, b: set<int>)
    requires a <= b && |a| == |b|
    ensures a == b
  {
    assert b == a + (b - a) && |b| == |a| + |b - a|;
  }

  /** The number of positions that the counting predicates ask for. */
  function Demand(pred: string): Option<nat> {
    if pred == "keys-2" then Some(2)
    else if pred == PREFIX + "keys-1" then Some(1)
    else if pred == PREFIX + "keys-3" then Some(3)
    else if pred == PREFIX + "keys-4" then Some(4)
    else if pred == PREFIX + "keys-2-of-3" then Some(2)
    else if pred == PREFIX + "keys-3-of-5" then Some(3)
    else if pred == PREFIX + "keys-4-of-7" then Some(4)
    else if pred == PREFIX + "keys-5-of-9" then Some(5)
    else None
  }

  function PercentDemanded(pred: string): Option<nat> {
    if pred == PREFIX + "at-least-51pct" then Some(51)
    else if pred == PREFIX + "at-least-60pct" then Some(60)
    else if pred == PREFIX + "at-least-66pct" then Some(66)
    else if pred == PREFIX + "at-least-75pct" then Some(75)
    else if pred == PREFIX + "at-least-90pct" then Some(90)
    else None
  }

  /** The number of positions that may go without a key. */
  function Tolerance(pred: string): Option<nat> {
    if pred == PREFIX + "all-but-one" then Some(1)
    else if pred == PREFIX + "all-but-two" then Some(2)
    else None
  }

  lemma FixedNames(pred: string)
    ensures pred in FIXED <==> pred == PREFIX + "keys-1" || pred == PREFIX + "keys-3" || pred == PREFIX + "keys-4"
    ensures pred in FIXED ==> Demand(pred) == Some(FIXED[pred])
    ensures pred in FIXED ==> |pred| == 31 && pred[25] == 'k'
  {
    assert STOIC == PREFIX && |PREFIX| == 25;
    assert (PREFIX + "keys-1")[30] == '1' && (PREFIX + "keys-3")[30] == '3' && (PREFIX + "keys-4")[30] == '4';
  }

  lemma CountedNames(pred: string)
    ensures pred in M_OF_N <==>
      || pred == PREFIX + "keys-2-of-3" || pred == PREFIX + "keys-3-of-5"
      || pred == PREFIX + "keys-4-of-7" || pred == PREFIX + "keys-5-of-9"
    ensures pred in M_OF_N ==> Demand(pred) == Some(M_OF_N[pred])
    ensures pred in M_OF_N ==> |pred| == 36 && pred[25] == 'k'
  {
    assert STOIC == PREFIX && |PREFIX| == 25;
    assert (PREFIX + "keys-2-of-3")[30] == '2' && (PREFIX + "keys-3-of-5")[30] == '3';
    assert (PREFIX + "keys-4-of-7")[30] == '4' && (PREFIX + "keys-5-of-9")[30] == '5';
    FixedNames(pred);
  }

  lemma PercentNamesExactly(pred: string)
    ensures pred in PERCENT <==> PercentDemanded(pred).Some?
    ensures pred in PERCENT ==> PercentDemanded(pred) == Some(PERCENT[pred])
    ensures pred in PERCENT ==> |pred| == 39 && pred[25] == 'a'
  {
    assert STOIC == PREFIX && |PREFIX| == 25;
    assert (PREFIX + "at-least-51pct")[34] == '5' && (PREFIX + "at-least-60pct")[35] == '0';
    assert (PREFIX + "at-least-60pct")[34] == '6' && (PREFIX + "at-least-66pct")[34..36] == "66";
    assert (PREFIX + "at-least-66pct")[35] == '6';
    assert (PREFIX + "at-least-75pct")[34] == '7' && (PREFIX + "at-least-90pct")[34] == '9';
  }

  lemma ToleranceNames(pred: string)
    ensures Tolerance(pred).Some? ==> |pred| == 36 && pred[25] == 'a'
    ensures Tolerance(pred) == Some(1) <==> pred == STOIC + "all-but-one"
    ensures Tolerance(pred) == Some(2) <==> pred == STOIC + "all-but-two"
  {
    assert STOIC == PREFIX && |PREFIX| == 25;
    assert (PREFIX + "all-but-one")[34] == 'n' && (PREFIX + "all-but-two")[34] == 'w';
  }

  /** The threshold of every predicate for a keyset of n keys. */
  lemma Thresholds(pred: string, n: nat)
    requires n > 0
    ensures ComputeThreshold(pred, n) ==
      if pred == "keys-any" then Some(1)
      else if pred == "keys-all" then Some(n)
      else if Demand(pred).Some? then Some(Min(Demand(pred).value, n))
      else if PercentDemanded(pred).Some? then Some((n * PercentDemanded(pred).value + 99) / 100)
      else if Tolerance(pred).Some? then Some(Max(1, n - Tolerance(pred).value))
      else None
  {
    FixedNames(pred);
    CountedNames(pred);
    PercentNamesExactly(pred);
    ToleranceNames(pred);
  }

  // ---------- Satisfaction, predicate by predicate ----------

  /** Any of the keys. */
  lemma AnySatisfied(g: Guard, codex: set<Term>, resolved: map<Term, Term>)
    requires g.keys != [] && g.pred == "keys-any"
    ensures Satisfied(g, codex, resolved) <==> exists k <- g.keys :: Held(codex, resolved, k)
  {
    SatisfiedCounts(g, codex, resolved);
    Thresholds(g.pred, |g.keys|);
    AllPositions(g, codex, resolved);
  }

  /** A predicate that no table knows. */
  predicate Unrecognised(pred: string) {
    && pred != "keys-any" && pred != "keys-all"
    && Demand(pred).None? && PercentDemanded(pred).None? && Tolerance(pred).None?
  }

  /** All of the keys, also for an unrecognised predicate. */
  lemma AllSatisfied(g: Guard, codex: set<Term>, resolved: map<Term, Term>)
    requires g.keys != [] && (g.pred == "keys-all" || Unrecognised(g.pred))
    ensures Satisfied(g, codex, resolved) <==> forall k <- g.keys :: Held(codex, resolved, k)
    ensures ComputeThreshold(g.pred, |g.keys|).None? <==> g.pred != "keys-all"
  {
    SatisfiedCounts(g, codex, resolved);
    Thresholds(g.pred, |g.keys|);
    AllPositions(g, codex, resolved);
  }

  /** So many positions, or all if there are fewer. */
  lemma CountSatisfied(g: Guard, codex: set<Term>, resolved: map<Term, Term>)
    requires g.keys != [] && Demand(g.pred).Some?
    ensures Satisfied(g, codex, resolved) <==>
      |Positions(g, codex, resolved)| >= Min(Demand(g.pred).value, |g.keys|)
  {
    SatisfiedCounts(g, codex, resolved);
    Thresholds(g.pred, |g.keys|);
  }

  /** So many percent of the positions. */
  lemma PercentSatisfied(g: Guard, codex: set<Term>, resolved: map<Term, Term>)
    requires g.keys != [] && PercentDemanded(g.pred).Some?
    ensures Satisfied(g, codex, resolved) <==>
      |Positions(g, codex, resolved)| * 100 >= |g.keys| * PercentDemanded(g.pred).value
  {
    SatisfiedCounts(g, codex, resolved);
    PercentNamesExactly(g.pred);
    PercentThresholdIsLeast(g.pred, |g.keys|, |Positions(g, codex, resolved)|);
  }

  /** All positions but one or two, and at least one. */
  lemma ToleranceSatisfied(g: Guard, codex: set<Term>, resolved: map<Term, Term>)
    requires g.keys != [] && Tolerance(g.pred).Some?
    ensures Satisfied(g, codex, resolved) <==>
      && |g.keys| - |Positions(g, codex, resolved)| <= Tolerance(g.pred).value
      && exists k <- g.keys :: Held(codex, resolved, k)
  {
    SatisfiedCounts(g, codex, resolved);
    Thresholds(g.pred, |g.keys|);
    ToleranceNames(g.pred);
    AllPositions(g, codex, resolved);
  }
}
