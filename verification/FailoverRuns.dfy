/**
 Whole runs of the failover: any number of wrapped calls, health probes, interval ticks and configuration
 changes, interleaved at every point where the source awaits. A run is a sequence of events; an event that
 is not enabled leaves the state alone, so every sequence of events is a run. Virtual time advances only
 when no continuation is waiting to be scheduled and no armed deadline would be overtaken.
 */
module FailoverRuns {
  import opened Wrappers
  import opened NodeFailover

  /** How a wrapped call is timed: not at all (a direct caller of `withFailover`), by a finite number of
      milliseconds, or by a value that is not finite. */
  datatype Limit = Untimed | Ms(ms: real) | NotFinite

  predicate ValidLimit(l: Limit) {
    l.Untimed? || (l.Ms? && l.ms > 0.0)
  }

  /** A signed transaction, or any other payload, with the request key that the mempool sees. */
  datatype Payload = Payload(hash: string, body: string)

  datatype Reply = Good(value: string) | Bad(error: Thrown)

  datatype Outcome = Value(value: string) | Raised(error: Thrown) | Timeout

  const ABORT_ERROR := Thrown(true, false)
  /** The rejection of `runWithTimeout` for a limit that is not a finite positive number. */
  const INVALID_TIMEOUT := Thrown(false, false)

  /** One invocation of the wrapped function: the URL it was given, when, whether it reached the chain client,
      whether its own AbortController was aborted, and how it ended. */
  datatype Attempt = Attempt(url: string, issuedAt: real, sent: bool, aborted: bool, reply: Option<Reply>)

  datatype Call = Call(
    payload: Payload,
    limit: Limit,
    startedAt: real,
    url: string,
    primaryUrl: string,
    attempts: seq<Attempt>,
    outcome: Option<Outcome>,
    settledAt: real)

  /** A probe of the retry interval switches to the primary when healthy, the one of the startup switches to
      the fallback when not. */
  datatype ProbeKind = RetryProbe | StartupProbe

  datatype Probe = Probe(host: string, kind: ProbeKind)

  /** What leaves the process. */
  datatype Request = Chain(id: nat, url: string, payload: Payload) | Health(host: string)

  datatype Sys = Sys(
    node: Node,
    now: real,
    calls: map<nat, Call>,
    probes: map<nat, Probe>,
    sent: seq<Request>,
    mempool: map<string, Payload>)

  datatype Event =
    | Start(id: nat, payload: Payload, limit: Limit)
    | Answer(id: nat, reply: Reply)
    | DeadlineFires(id: nat)
    | Catch(id: nat)
    | Tick(handle: nat, probe: nat)
    | Startup(probe: nat)
    | ProbeDone(probe: nat, healthy: bool)
    | Configure(sel: Selection, gas: Option<int>)
    | Reset
    | Delivered(k: nat)
    | Advance(dt: real)

  const START := Sys(INITIAL, 0.0, map[], map[], [], map[])

  function Last(c: Call): Attempt
    requires |c.attempts| > 0
  {
    c.attempts[|c.attempts| - 1]
  }

  /** An attempt is out and neither its answer nor its deadline has come. */
  predicate Running(c: Call) {
    c.outcome.None? && |c.attempts| > 0 && Last(c).reply.None?
  }

  /** The attempt is over and the continuation of the call is queued. */
  predicate Queued(c: Call) {
    c.outcome.None? && |c.attempts| > 0 && Last(c).reply.Some?
  }

  predicate MayWait(c: Call, until: real) {
    && !Queued(c)
    && (Running(c) && c.limit.Ms? ==> until <= Last(c).issuedAt + c.limit.ms)
  }

  predicate Enabled(s: Sys, e: Event) {
    match e
    case Start(id, _, _) => id !in s.calls
    case Answer(id, _) => id in s.calls && Running(s.calls[id])
    case DeadlineFires(id) =>
      && id in s.calls && Running(s.calls[id]) && s.calls[id].limit.Ms?
      && s.now >= Last(s.calls[id]).issuedAt + s.calls[id].limit.ms
    case Catch(id) => id in s.calls && Queued(s.calls[id])
    case Tick(h, p) => h in s.node.live && p !in s.probes
    case Startup(p) => p !in s.probes
    case ProbeDone(p, _) => p in s.probes
    case Configure(_, _) => true
    case Reset => true
    case Delivered(k) => k < |s.sent| && s.sent[k].Chain?
    case Advance(dt) => dt >= 0.0 && forall id <- s.calls :: MayWait(s.calls[id], s.now + dt)
  }

  /** `runWithTimeout` checks its limit before it calls the worker. */
  function NewAttempt(url: string, now: real, limit: Limit): Attempt {
    if ValidLimit(limit)
    then Attempt(url, now, true, false, None)
    else Attempt(url, now, false, false, Some(Bad(INVALID_TIMEOUT)))
  }

  function WithAttempt(s: Sys, id: nat, c: Call, url: string): Sys {
    s.(calls := s.calls[id := c.(attempts := c.attempts + [NewAttempt(url, s.now, c.limit)])],
       sent := if ValidLimit(c.limit) then s.sent + [Chain(id, url, c.payload)] else s.sent)
  }

  function WithReply(s: Sys, id: nat, reply: Reply, aborted: bool): Sys
    requires id in s.calls && |s.calls[id].attempts| > 0
  {
    var c := s.calls[id];
    var a := Last(c).(reply := Some(reply), aborted := aborted);
    s.(calls := s.calls[id := c.(attempts := c.attempts[|c.attempts| - 1 := a])])
  }

  /** The outer boundary of a client method turns an `AbortError` into a timeout; a direct caller of
      `withFailover` sees the error itself. */
  function Boundary(limit: Limit, reply: Reply): Outcome {
    match reply
    case Good(v) => Value(v)
    case Bad(e) => if e.abortName && !limit.Untimed? then Timeout else Raised(e)
  }

  function WithOutcome(s: Sys, id: nat, reply: Reply): Sys
    requires id in s.calls
  {
    var c := s.calls[id];
    s.(calls := s.calls[id := c.(outcome := Some(Boundary(c.limit, reply)), settledAt := s.now)])
  }

  /** Only the first attempt runs inside the `try` block. */
  function Continue(s: Sys, id: nat): Sys
    requires id in s.calls && Queued(s.calls[id])
  {
    var c := s.calls[id];
    var reply := Last(c).reply.value;
    if |c.attempts| == 1 && reply.Bad? then
      var (node, retry) := Caught(s.node, reply.error, c.url, c.primaryUrl);
      if retry.Some? then WithAttempt(s.(node := node), id, c, retry.value)
      else WithOutcome(s, id, reply)
    else WithOutcome(s, id, reply)
  }

  function Step(s: Sys, e: Event): Sys {
    if !Enabled(s, e) then s
    else
      match e
      case Start(id, payload, limit) =>
        var url := BaseUrl(s.node.current);
        WithAttempt(s, id, Call(payload, limit, s.now, url, BaseUrl(s.node.primary), [], None, 0.0), url)
      case Answer(id, reply) => WithReply(s, id, reply, false)
      case DeadlineFires(id) => WithReply(s, id, Bad(ABORT_ERROR), true)
      case Catch(id) => Continue(s, id)
      case Tick(_, p) =>
        s.(probes := s.probes[p := Probe(s.node.primary, RetryProbe)], sent := s.sent + [Health(s.node.primary)])
      case Startup(p) =>
        s.(probes := s.probes[p := Probe(s.node.primary, StartupProbe)], sent := s.sent + [Health(s.node.primary)])
      case ProbeDone(p, healthy) =>
        var kind := s.probes[p].kind;
        s.(probes := s.probes - {p},
           node := if kind.RetryProbe? && healthy then ToPrimary(s.node)
                   else if kind.StartupProbe? && !healthy then ToFallback(s.node)
                   else s.node)
      case Configure(sel, gas) => s.(node := Configured(s.node, sel, gas))
      case Reset => s.(node := Restarted(s.node))
      case Delivered(k) => s.(mempool := s.mempool[s.sent[k].payload.hash := s.sent[k].payload])
      case Advance(dt) => s.(now := s.now + dt)
  }

  function RunFrom(s: Sys, es: seq<Event>): Sys {
    if es == [] then s else Step(RunFrom(s, es[..|es| - 1]), es[|es| - 1])
  }

  function Run(es: seq<Event>): Sys {
    RunFrom(START, es)
  }

  lemma {:induction false} RunSplit(s: Sys, es: seq<Event>, k: nat)
    requires k <= |es|
    ensures RunFrom(s, es) == RunFrom(RunFrom(s, es[..k]), es[k..])
  {
    if k == |es| {
      assert es[..k] == es;
    } else {
      var front := es[..|es| - 1];
      RunSplit(s, front, k);
      assert front[..k] == es[..k];
      assert es[k..][..|es[k..]| - 1] == front[k..];
    }
  }

  lemma RunStep(s: Sys, es: seq<Event>, e: Event)
    ensures RunFrom(s, es + [e]) == Step(RunFrom(s, es), e)
  {
    assert (es + [e])[..|es|] == es;
  }

  // ---------- The node variables ----------

  lemma NodeStep(s: Sys, e: Event)
    requires Inv(s.node)
    ensures Inv(Step(s, e).node)
  {
  }

  /** In every reachable state the active host is the configured primary or fallback, the runtime holds at most
      one live interval, and it holds one only while the active host is a fallback other than the primary. */
  lemma {:induction false} HostAndTimerInvariant(es: seq<Event>)
    ensures var n := Run(es).node;
      && (n.current == n.primary || n.current == n.fallback)
      && |n.live| <= 1
      && (n.live != {} ==> n.timer.Some? && OnDistinctFallback(n))
      && Inv(n)
  {
    if es != [] {
      HostAndTimerInvariant(es[..|es| - 1]);
      NodeStep(Run(es[..|es| - 1]), es[|es| - 1]);
    }
  }

  /** A custom configuration that is refused while the active host is a distinct fallback. */
  predicate Strands(n: Node, e: Event) {
    e.Configure? && ConfigProblem(e.sel).Some? && OnDistinctFallback(n)
  }

  /** An event that installs a new pair of hosts. */
  predicate Reconfigures(e: Event) {
    e.Reset? || (e.Configure? && ConfigProblem(e.sel).None?)
  }

  /** One step strands the node only by a refused configuration, and a stranded node stays so as long as it
      stays on the fallback. */
  lemma StrandStep(s: Sys, e: Event)
    requires Inv(s.node)
    ensures Strands(s.node, e) ==> Stranded(Step(s, e).node)
    ensures Stranded(Step(s, e).node) && !Stranded(s.node) ==> Strands(s.node, e)
    ensures Stranded(s.node) && OnDistinctFallback(Step(s, e).node) ==> Stranded(Step(s, e).node)
  {
  }

  ghost predicate StrandedAt(es: seq<Event>, i: nat)
    requires i < |es|
  {
    && Strands(Run(es[..i]).node, es[i])
    && forall j :: i < j <= |es| ==> OnDistinctFallback(Run(es[..j]).node)
  }

  /** The fallback has no retry interval exactly when some custom configuration was refused while on a distinct
      fallback and the node has been on a distinct fallback ever since. */
  lemma {:induction false} StrandedExactly(es: seq<Event>)
    ensures Stranded(Run(es).node) <==> exists i: nat :: i < |es| && StrandedAt(es, i)
  {
    if es != [] {
      var front := es[..|es| - 1];
      HostAndTimerInvariant(front);
      StrandStep(Run(front), es[|es| - 1]);
      StrandedExactly(front);
      forall i: nat | i < |front|
        ensures StrandedAt(es, i) <==> StrandedAt(front, i) && OnDistinctFallback(Run(es).node)
      {
        StrandedLonger(es, front, i);
      }
      assert es[..|es|] == es;
      assert StrandedAt(es, |es| - 1) <==> Strands(Run(front).node, es[|es| - 1]) && OnDistinctFallback(Run(es).node);
    }
  }

  lemma StrandedLonger(es: seq<Event>, front: seq<Event>, i: nat)
    requires es != [] && front == es[..|es| - 1] && i < |front|
    ensures StrandedAt(es, i) <==> StrandedAt(front, i) && OnDistinctFallback(Run(es).node)
  {
    PrefixesOf(es, front);
    assert es[..|es|] == es;
  }

  lemma PrefixesOf(es: seq<Event>, front: seq<Event>)
    requires es != [] && front == es[..|es| - 1]
    ensures forall j :: 0 <= j <= |front| ==> front[..j] == es[..j]
    ensures forall j :: 0 <= j < |front| ==> front[j] == es[j]
  {
  }

  /** On every run without such a refusal, being on a distinct fallback and having a live interval coincide. */
  lemma RetryIntervalExactlyOnFallback(es: seq<Event>)
    requires forall i :: 0 <= i < |es| ==> !Strands(Run(es[..i]).node, es[i])
    ensures OnDistinctFallback(Run(es).node) <==> Run(es).node.live != {}
  {
    HostAndTimerInvariant(es);
    StrandedExactly(es);
  }

  lemma FourSteps(e0: Event, e1: Event, e2: Event, e3: Event)
    ensures Run([e0, e1, e2, e3]) == Step(Step(Step(Step(START, e0), e1), e2), e3)
  {
    assert [] + [e0] == [e0] && [e0] + [e1] == [e0, e1];
    assert [e0, e1] + [e2] == [e0, e1, e2] && [e0, e1, e2] + [e3] == [e0, e1, e2, e3];
    RunStep(START, [], e0);
    RunStep(START, [e0], e1);
    RunStep(START, [e0, e1], e2);
    RunStep(START, [e0, e1, e2], e3);
  }

  /** The refusal is reachable: a call fails on the primary, its continuation switches to the fallback, and a
      custom configuration without a URL then leaves the fallback active with no retry interval. */
  lemma RefusalStrands(payload: Payload, failure: Thrown)
    requires IsNetworkError(failure)
    ensures Stranded(Run([Start(0, payload, Untimed), Answer(0, Bad(failure)), Catch(0),
                          Configure(Custom(Missing), None)]).node)
  {
    FourSteps(Start(0, payload, Untimed), Answer(0, Bad(failure)), Catch(0), Configure(Custom(Missing), None));
    var s1 := Step(START, Start(0, payload, Untimed));
    var s2 := Step(s1, Answer(0, Bad(failure)));
    assert Queued(s2.calls[0]) && s2.node == INITIAL && s2.calls[0].url == s2.calls[0].primaryUrl;
    var s3 := Step(s2, Catch(0));
    assert s3.node == ToFallback(INITIAL);
    assert NODE1_HOST[12] != NODE2_HOST[12];
  }

  ghost predicate NoRetryProbe(s: Sys) {
    forall p <- s.probes :: s.probes[p].kind.StartupProbe?
  }

  /** A stranded node with no retry probe still in the air never looks at its primary again: whatever calls,
      probes, ticks and refused configurations follow, only a new configuration or a reset ends it. */
  lemma {:induction false} StrandedForever(s: Sys, es: seq<Event>)
    requires Inv(s.node) && Stranded(s.node) && NoRetryProbe(s)
    requires forall e <- es :: !Reconfigures(e)
    ensures var t := RunFrom(s, es);
      && t.node == s.node && NoRetryProbe(t)
  {
    if es != [] {
      var front := es[..|es| - 1];
      StrandedForever(s, front);
      var t := RunFrom(s, front);
      assert !Reconfigures(es[|es| - 1]);
      NodeStep(t, es[|es| - 1]);
    }
  }

  // ---------- No request leaves for a node the user did not choose ----------

  predicate Targets(r: Request, origin: string) {
    match r
    case Chain(_, url, _) => url == BaseUrl(origin)
    case Health(host) => host == origin
  }

  predicate SelfContained(n: Node, origin: string) {
    n.primary == origin && n.fallback == origin && n.current == origin
  }

  lemma SelfContainedStep(s: Sys, e: Event, origin: string)
    requires SelfContained(s.node, origin) && !Reconfigures(e)
    ensures var t := Step(s, e);
      && SelfContained(t.node, origin)
      && (t.sent == s.sent || exists r :: t.sent == s.sent + [r] && Targets(r, origin))
  {
  }

  lemma {:induction false} SelfContainedRun(s: Sys, es: seq<Event>, origin: string)
    requires SelfContained(s.node, origin)
    requires forall e <- es :: !Reconfigures(e)
    ensures var t := RunFrom(s, es);
      && SelfContained(t.node, origin)
      && s.sent <= t.sent
      && forall k :: |s.sent| <= k < |t.sent| ==> Targets(t.sent[k], origin)
  {
    if es != [] {
      SelfContainedRun(s, es[..|es| - 1], origin);
      SelfContainedStep(RunFrom(s, es[..|es| - 1]), es[|es| - 1], origin);
    }
  }

  /** After an accepted custom configuration and until the next accepted configuration or reset, every request
      that leaves, including the retries of calls that began before it, goes to the chosen origin. */
  lemma NoLeak(es: seq<Event>, i: nat, origin: string, gas: Option<int>)
    requires i < |es| && es[i] == Configure(Custom(Parsed("https:", origin)), gas)
    requires forall j :: i < j < |es| ==> !Reconfigures(es[j])
    ensures Run(es[..i + 1]).sent <= Run(es).sent
    ensures forall k :: |Run(es[..i + 1]).sent| <= k < |Run(es).sent| ==> Targets(Run(es).sent[k], origin)
  {
    var s := Run(es[..i + 1]);
    assert es[..i + 1][..i] == es[..i];
    assert s == Step(Run(es[..i]), es[i]);
    RunSplit(START, es, i + 1);
    SelfContainedRun(s, es[i + 1..], origin);
  }

  // ---------- The gas limit of the active node ----------

  /** The last event that installed a pair of hosts. */
  function LastInstalled(es: seq<Event>): Option<Event> {
    if es == [] then None
    else if Reconfigures(es[|es| - 1]) then Some(es[|es| - 1])
    else LastInstalled(es[..|es| - 1])
  }

  predicate IsPreset(host: string) {
    host == NODE2_HOST || host == NODE1_HOST
  }

  /** The limit that goes with the last installation: 2,000,000, unless it was a custom node of another origin, which
      has its own limit or 1,600,000. */
  function LimitOf(installed: Option<Event>): int {
    match installed
    case Some(Configure(Custom(Parsed(_, origin)), gas)) =>
      if IsPreset(origin) then 2_000_000 else if gas.Some? then gas.value else 1_600_000
    case _ => 2_000_000
  }

  /** What the node variables keep of the last installation, whatever the failover did since. */
  predicate Installed(n: Node, installed: Option<Event>) {
    match installed
    case Some(Configure(Custom(Parsed(_, origin)), gas)) =>
      SelfContained(n, origin) && n.customGas == (if gas.Some? then gas.value else DEFAULT_GAS_LIMIT)
    case _ => IsPreset(n.primary) && IsPreset(n.fallback) && IsPreset(n.current)
  }

  lemma InstalledStep(s: Sys, e: Event, installed: Option<Event>)
    requires Installed(s.node, installed)
    ensures Installed(Step(s, e).node, if Reconfigures(e) then Some(e) else installed)
  {
  }

  lemma {:induction false} InstalledRun(es: seq<Event>)
    ensures Installed(Run(es).node, LastInstalled(es))
  {
    if es != [] {
      InstalledRun(es[..|es| - 1]);
      InstalledStep(Run(es[..|es| - 1]), es[|es| - 1], LastInstalled(es[..|es| - 1]));
    }
  }

  /** In every reachable state the active node's limit is that of the last accepted configuration or reset: no switch,
      probe or refused configuration changes it. */
  lemma ActiveLimitOverRuns(es: seq<Event>)
    ensures ActiveGasLimit(Run(es).node) == LimitOf(LastInstalled(es))
  {
    InstalledRun(es);
  }
}
