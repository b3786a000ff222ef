/**
 What a run sends and where: the hosts that are configured, the URLs a call captures at its entry, and the requests
 and probes of every event.
 */
module FailoverEntry {
  import opened Wrappers
  import opened NodeFailover
  import opened FailoverRuns
  import opened FailoverCalls

  // ---------- The configured hosts ----------

  const NODE1 := "https://node1.stoachain.com"
  const NODE2 := "https://node2.stoachain.com"

  /** The primary and the fallback that a history of configurations leads to: a preset selection puts that node first
      and the other second; a custom one is its own fallback, and counts only with a URL that parses and whose
      scheme is https. */
  function ChosenHosts(es: seq<Event>): (string, string) {
    if es == [] then (NODE2, NODE1)
    else
      match es[|es| - 1]
      case Reset => (NODE2, NODE1)
      case Configure(Node2, _) => (NODE2, NODE1)
      case Configure(Node1, _) => (NODE1, NODE2)
      case Configure(Custom(Parsed("https:", origin)), _) => (origin, origin)
      case _ => ChosenHosts(es[..|es| - 1])
  }

  lemma HostsStep(s: Sys, e: Event)
    ensures var n, t := s.node, Step(s, e).node;
      (t.primary, t.fallback) ==
        match e
        case Reset => (NODE2, NODE1)
        case Configure(Node2, _) => (NODE2, NODE1)
        case Configure(Node1, _) => (NODE1, NODE2)
        case Configure(Custom(Parsed("https:", origin)), _) => (origin, origin)
        case _ => (n.primary, n.fallback)
  {
  }

  /** In every reachable state the pair of hosts is the one that was chosen last. */
  lemma {:induction false} HostsOverRuns(es: seq<Event>)
    ensures (Run(es).node.primary, Run(es).node.fallback) == ChosenHosts(es)
  {
    if es != [] {
      HostsOverRuns(es[..|es| - 1]);
      HostsStep(Run(es[..|es| - 1]), es[|es| - 1]);
    }
  }

  // ---------- What every event sends ----------

  function ChainUrl(host: string): string {
    host + "/chainweb/0.0/stoa"
  }

  /** A call sends its first attempt to the active host; a first attempt that failed on the captured primary sends one
      more to the fallback; a tick and the startup ask the primary for its health; nothing else sends anything. */
  function Sends(s: Sys, e: Event): seq<Request> {
    if !Enabled(s, e) then []
    else
      match e
      case Start(id, payload, limit) =>
        if ValidLimit(limit) then [Chain(id, ChainUrl(s.node.current), payload)] else []
      case Catch(id) =>
        var c := s.calls[id];
        if |c.attempts| == 1 && BadNetwork(c.attempts[0]) && c.url == c.primaryUrl && ValidLimit(c.limit)
        then [Chain(id, ChainUrl(s.node.fallback), c.payload)]
        else []
      case Tick(_, _) => [Health(s.node.primary)]
      case Startup(_) => [Health(s.node.primary)]
      case _ => []
  }

  lemma SendsExactly(s: Sys, e: Event)
    ensures Step(s, e).sent == s.sent + Sends(s, e)
  {
    assert s.sent + [] == s.sent;
  }

  // ---------- The entry of a call ----------

  /** The i-th event started the call, with the URLs of the hosts that were active and primary then. */
  predicate StartedBy(es: seq<Event>, id: nat, c: Call, i: nat)
    requires i < |es|
  {
    var s := Run(es[..i]);
    && es[i] == Start(id, c.payload, c.limit) && Enabled(s, es[i])
    && c.url == ChainUrl(s.node.current) && c.primaryUrl == ChainUrl(s.node.primary)
    && c.startedAt == s.now
  }

  /** A step leaves what a call captured at its entry, and a new call captures the hosts of the moment. */
  lemma CapturedStep(s: Sys, e: Event, id: nat)
    requires id in Step(s, e).calls
    ensures var d := Step(s, e).calls[id];
      if id in s.calls then
        var c := s.calls[id];
        && c.payload == d.payload && c.limit == d.limit && c.url == d.url && c.primaryUrl == d.primaryUrl
        && c.startedAt == d.startedAt
      else
        && e == Start(id, d.payload, d.limit) && Enabled(s, e)
        && d.url == ChainUrl(s.node.current) && d.primaryUrl == ChainUrl(s.node.primary) && d.startedAt == s.now
  {
  }

  /** Every call of every run was started by some event, and its URLs are those of the active host and of the primary
      at that moment; its first attempt went to the active host. */
  lemma {:induction false} CallEntry(es: seq<Event>, id: nat) returns (i: nat)
    requires id in Run(es).calls
    ensures i < |es| && StartedBy(es, id, Run(es).calls[id], i)
    ensures |Run(es).calls[id].attempts| > 0
    ensures Run(es).calls[id].attempts[0].url == ChainUrl(Run(es[..i]).node.current)
  {
    CallsOkRun(es);
    assert CallOk(Run(es).calls[id], Run(es).now);
    var front := es[..|es| - 1];
    CapturedStep(Run(front), es[|es| - 1], id);
    if id in Run(front).calls {
      i := CallEntry(front, id);
      assert front[..i] == es[..i];
    } else {
      i := |es| - 1;
    }
  }

  // ---------- On the fallback ----------

  /** From the i-th to the j-th event the node is on a distinct fallback, and no hosts are installed. */
  ghost predicate OnFallback(es: seq<Event>, i: nat, j: nat)
    requires i <= j <= |es|
  {
    forall k :: i <= k < j ==> OnDistinctFallback(Run(es[..k]).node) && !Reconfigures(es[k])
  }

  /** One event on a distinct fallback sends chain requests to that fallback alone. */
  lemma SendsToFallback(s: Sys, e: Event)
    requires Inv(s.node) && OnDistinctFallback(s.node)
    ensures forall r <- Sends(s, e) :: r.Chain? ==> r.url == ChainUrl(s.node.fallback)
  {
  }

  predicate ChainTo(url: string, rs: seq<Request>) {
    forall r <- rs :: r.Chain? ==> r.url == url
  }

  /** Meanwhile every chain request goes to that fallback. */
  lemma {:induction false} FallbackServes(es: seq<Event>, i: nat, j: nat) returns (sent: seq<Request>)
    requires i <= j <= |es| && OnFallback(es, i, j)
    ensures var s, t := Run(es[..i]), Run(es[..j]);
      && t.node.fallback == s.node.fallback && t.node.primary == s.node.primary
      && t.sent == s.sent + sent && ChainTo(ChainUrl(s.node.fallback), sent)
    decreases j - i
  {
    sent := [];
    if i < j {
      var before := FallbackServes(es, i, j - 1);
      var u, e := Run(es[..j - 1]), es[j - 1];
      assert es[..j] == es[..j - 1] + [e];
      RunStep(START, es[..j - 1], e);
      HostAndTimerInvariant(es[..j - 1]);
      HostsKept(u, e);
      SendsExactly(u, e);
      SendsToFallback(u, e);
      sent := before + Sends(u, e);
    }
  }

  lemma HostsKept(s: Sys, e: Event)
    requires !Reconfigures(e)
    ensures Step(s, e).node.primary == s.node.primary && Step(s, e).node.fallback == s.node.fallback
  {
  }

  /** A call that starts on a distinct fallback makes a single attempt. */
  lemma StartedOnFallback(es: seq<Event>, id: nat, i: nat)
    requires id in Run(es).calls && i < |es| && StartedBy(es, id, Run(es).calls[id], i)
    requires OnDistinctFallback(Run(es[..i]).node)
    ensures |Run(es).calls[id].attempts| == 1
  {
    CallsOkRun(es);
    assert CallOk(Run(es).calls[id], Run(es).now);
    BaseUrlInjective(Run(es[..i]).node.current, Run(es[..i]).node.primary);
  }

  // ---------- Probes and the mempool ----------

  lemma StartupStep(s: Sys, probe: nat, healthy: bool)
    requires probe !in s.probes
    ensures Step(Step(s, Startup(probe)), ProbeDone(probe, healthy)).node ==
      if healthy then s.node else ToFallback(s.node)
  {
  }

  /** A startup probe that comes back unhealthy moves the node to its fallback, and with it starts an interval; a
      healthy one leaves it. */
  lemma StartupDecides(es: seq<Event>, probe: nat, healthy: bool)
    requires probe !in Run(es).probes
    ensures var n, t := Run(es).node, Run(es + [Startup(probe)] + [ProbeDone(probe, healthy)]).node;
      if healthy then t == n else t.current == n.fallback && (n.current != n.fallback ==> t.live != {})
  {
    RunStep(START, es, Startup(probe));
    RunStep(START, es + [Startup(probe)], ProbeDone(probe, healthy));
    StartupStep(Run(es), probe, healthy);
  }

  /** A delivered request puts the payload its call was started with into the mempool, under its request key. */
  lemma DeliveryRecorded(es: seq<Event>, k: nat)
    requires k < |Run(es).sent| && Run(es).sent[k].Chain?
    ensures var s, t := Run(es), Run(es + [Delivered(k)]);
      && s.sent[k].id in s.calls
      && var payload := s.calls[s.sent[k].id].payload;
        payload.hash in t.mempool && t.mempool[payload.hash] == payload
  {
    MempoolRun(es);
    assert SentBy(Run(es), Run(es).sent[k]);
    RunStep(START, es, Delivered(k));
  }
}
