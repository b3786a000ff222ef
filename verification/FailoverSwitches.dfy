/**
 When the active host changes. Continuations and probes act on the configuration in force when they run, so what
 began under an earlier configuration can switch a later one.
 */
module FailoverSwitches {
  import opened Wrappers
  import opened NodeFailover
  import opened FailoverRuns
  import opened FailoverCalls

  /** The call's first attempt failed with a network error on the primary it captured. */
  predicate FailedOnItsPrimary(c: Call) {
    |c.attempts| == 1 && BadNetwork(c.attempts[0]) && c.url == c.primaryUrl
  }

  predicate SwitchesHost(s: Sys, e: Event)
    requires Enabled(s, e)
  {
    match e
    case Catch(id) => FailedOnItsPrimary(s.calls[id]) && s.node.current != s.node.fallback
    case ProbeDone(p, healthy) =>
      if s.probes[p].kind.RetryProbe? then healthy && s.node.current != s.node.primary
      else !healthy && s.node.current != s.node.fallback
    case Configure(sel, _) => ConfigProblem(sel).None? && HostPair(sel).0 != s.node.current
    case Reset => s.node.current != NODE2_HOST
    case _ => false
  }

  /** The active host changes exactly on these conditions, none of which asks whether the call or the probe belongs to
      the present configuration; a failed call leads to the present fallback, a retry probe to the present primary. */
  lemma SwitchesExactly(s: Sys, e: Event)
    requires Enabled(s, e)
    ensures Step(s, e).node.current != s.node.current <==> SwitchesHost(s, e)
    ensures SwitchesHost(s, e) && e.Catch? ==> Step(s, e).node.current == s.node.fallback
    ensures SwitchesHost(s, e) && e.ProbeDone? ==>
      Step(s, e).node.current == if s.probes[e.probe].kind.RetryProbe? then s.node.primary else s.node.fallback
  {
  }

  /** A call that started on one primary and fails after another was configured makes the failover leave the new
      primary, to which nothing has ever been sent. */
  lemma StaleCallSwitches(payload: Payload, failure: Thrown)
    requires IsNetworkError(failure)
    ensures var s := Run([Start(0, payload, Untimed), Configure(Node1, None), Answer(0, Bad(failure)), Catch(0)]);
      && s.node.primary == NODE1_HOST && s.node.current == s.node.fallback == NODE2_HOST
      && forall r <- s.sent :: r.Chain? && r.url == BaseUrl(NODE2_HOST)
  {
    var es := [Start(0, payload, Untimed), Configure(Node1, None), Answer(0, Bad(failure)), Catch(0)];
    FourSteps(es[0], es[1], es[2], es[3]);
    var s1 := Step(START, es[0]);
    var s2 := Step(s1, es[1]);
    assert s1.calls[0].url == s1.calls[0].primaryUrl && s2.calls == s1.calls;
    var s3 := Step(s2, es[2]);
    assert Queued(s3.calls[0]) && s3.node == s2.node;
    assert NODE1_HOST[12] != NODE2_HOST[12];
  }

  /** A retry probe that set out to one primary and comes back healthy after another was configured, and failed, makes
      the failover return to the one that failed. */
  lemma LateProbeSwitches(payload: Payload, failure: Thrown) returns (es: seq<Event>)
    requires IsNetworkError(failure)
    ensures var s, t := Run(es), Run(es + [ProbeDone(0, true)]);
      && 0 in s.probes && s.probes[0].host == NODE2_HOST
      && s.node.primary == NODE1_HOST && s.node.current == NODE2_HOST
      && t.node.current == NODE1_HOST && t.node.live == {}
  {
    assert NODE1_HOST[12] != NODE2_HOST[12];
    var first := FallBack(START, 0, payload, failure);
    var s1 := Run(first);
    RunStep(START, first, Tick(0, 0));
    var s2 := Step(s1, Tick(0, 0));
    var probed := first + [Tick(0, 0)];
    RunStep(START, probed, Configure(Node1, None));
    var s3 := Step(s2, Configure(Node1, None));
    var configured := probed + [Configure(Node1, None)];
    var second := FallBack(s3, 1, payload, failure);
    es := configured + second;
    RunSplit(START, es, |configured|);
    assert es[..|configured|] == configured && es[|configured|..] == second;
    RunStep(START, es, ProbeDone(0, true));
  }

  /** A call on the primary fails and the failover switches; probes stay as they were. */
  lemma FallBack(s: Sys, id: nat, payload: Payload, failure: Thrown) returns (es: seq<Event>)
    requires IsNetworkError(failure) && id !in s.calls
    requires s.node.current == s.node.primary && s.node.primary != s.node.fallback
    ensures var t := RunFrom(s, es);
      && t.node == ToFallback(s.node) && t.probes == s.probes
      && t.calls.Keys == s.calls.Keys + {id}
  {
    es := [Start(id, payload, Untimed)];
    RunStep(s, [], es[0]);
    assert [] + es == es;
    var s1 := Step(s, es[0]);
    RunStep(s, es, Answer(id, Bad(failure)));
    var s2 := Step(s1, Answer(id, Bad(failure)));
    assert Queued(s2.calls[id]) && s2.calls[id].url == s2.calls[id].primaryUrl && s2.node == s.node;
    es := es + [Answer(id, Bad(failure))];
    RunStep(s, es, Catch(id));
    es := es + [Catch(id)];
  }

  // ---------- Back to the primary ----------

  /** A retry probe in flight answers healthy. */
  predicate RetryAnswer(s: Sys, e: Event) {
    e.ProbeDone? && e.healthy && e.probe in s.probes && s.probes[e.probe].kind.RetryProbe?
  }

  /** The i-th event is such an answer. */
  predicate AnswerAt(s: Sys, es: seq<Event>, i: nat)
    requires i < |es|
  {
    RetryAnswer(RunFrom(s, es[..i]), es[i])
  }

  ghost predicate NoRetryAnswer(s: Sys, es: seq<Event>) {
    forall i: nat :: i < |es| ==> !AnswerAt(s, es, i)
  }

  lemma AnswersInPrefix(s: Sys, es: seq<Event>, k: nat)
    requires k <= |es|
    ensures forall i: nat :: i < k ==> AnswerAt(s, es[..k], i) == AnswerAt(s, es, i)
  {
    forall i: nat | i < k ensures AnswerAt(s, es[..k], i) == AnswerAt(s, es, i) {
      assert es[..k][..i] == es[..i];
    }
  }

  /** Until then a stranded node stays as it is, and no new retry probe sets out. */
  lemma {:induction false} StrandedUntilAnswer(s: Sys, es: seq<Event>)
    requires Inv(s.node) && Stranded(s.node) && NoRetryAnswer(s, es)
    requires forall e <- es :: !Reconfigures(e)
    ensures var t := RunFrom(s, es);
      && t.node == s.node
      && forall p <- t.probes :: t.probes[p].kind.RetryProbe? ==> p in s.probes && s.probes[p] == t.probes[p]
  {
    if es != [] {
      var front, e := es[..|es| - 1], es[|es| - 1];
      AnswersInPrefix(s, es, |es| - 1);
      StrandedUntilAnswer(s, front);
      assert !AnswerAt(s, es, |es| - 1) && !Reconfigures(e);
      StrandedStep(RunFrom(s, front), e);
    }
  }

  lemma StrandedStep(s: Sys, e: Event)
    requires Inv(s.node) && Stranded(s.node) && !RetryAnswer(s, e) && !Reconfigures(e)
    ensures var t := Step(s, e);
      && t.node == s.node
      && forall p <- t.probes :: t.probes[p].kind.RetryProbe? ==> p in s.probes && s.probes[p] == t.probes[p]
  {
  }

  lemma {:induction false} FirstRetryAnswer(s: Sys, es: seq<Event>) returns (i: nat)
    requires !NoRetryAnswer(s, es)
    ensures i < |es| && AnswerAt(s, es, i) && NoRetryAnswer(s, es[..i])
  {
    var k := |es| - 1;
    AnswersInPrefix(s, es, k);
    if NoRetryAnswer(s, es[..k]) {
      i := k;
    } else {
      i := FirstRetryAnswer(s, es[..k]);
      assert es[..k][..i] == es[..i];
    }
  }

  /** Without a new configuration or reset, a stranded node gets its primary back exactly when a retry probe answers
      healthy, and that can only be one that was in flight already. */
  lemma PrimaryComesBackIff(s: Sys, es: seq<Event>)
    requires Inv(s.node) && Stranded(s.node) && forall e <- es :: !Reconfigures(e)
    ensures (exists j: nat :: j <= |es| && RunFrom(s, es[..j]).node.current == s.node.primary) <==>
      exists i: nat :: i < |es| && AnswerAt(s, es, i)
    ensures (exists i: nat :: i < |es| && AnswerAt(s, es, i)) ==> exists p <- s.probes :: s.probes[p].kind.RetryProbe?
  {
    if NoRetryAnswer(s, es) {
      forall j: nat | j <= |es| ensures RunFrom(s, es[..j]).node.current != s.node.primary {
        AnswersInPrefix(s, es, j);
        StrandedUntilAnswer(s, es[..j]);
      }
    } else {
      var i := FirstRetryAnswer(s, es);
      StrandedUntilAnswer(s, es[..i]);
      assert es[..i + 1][..i] == es[..i];
      assert RunFrom(s, es[..i + 1]) == Step(RunFrom(s, es[..i]), es[i]);
      assert es[i].probe in s.probes;
      assert i + 1 <= |es| && RunFrom(s, es[..i + 1]).node.current == s.node.primary;
    }
  }

  /** A live interval can always bring the primary back: one tick and one healthy answer are enough. */
  lemma LiveIntervalRestores(es: seq<Event>, handle: nat, probe: nat)
    requires handle in Run(es).node.live && probe !in Run(es).probes
    ensures Enabled(Run(es), Tick(handle, probe))
    ensures Enabled(Run(es + [Tick(handle, probe)]), ProbeDone(probe, true))
    ensures var n, t := Run(es).node, Run(es + [Tick(handle, probe)] + [ProbeDone(probe, true)]);
      t.node.current == n.primary != n.current && t.node.live == {}
  {
    HostAndTimerInvariant(es);
    RunStep(START, es, Tick(handle, probe));
    RunStep(START, es + [Tick(handle, probe)], ProbeDone(probe, true));
  }
}
