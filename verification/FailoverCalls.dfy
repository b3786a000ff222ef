/** What every wrapped call does in every run: its attempts, its outcome, its deadlines and what it leaves behind. */
module FailoverCalls {
  import opened Wrappers
  import opened Seqs
  import opened NodeFailover
  import opened FailoverRuns

  /** The attempt ended in an error with the name `AbortError` or a network message. */
  predicate BadNetwork(a: Attempt) {
    a.reply.Some? && a.reply.value.Bad? && (a.reply.value.error.abortName || a.reply.value.error.networkMessage)
  }

  /** One attempt: it is sent exactly when the limit is valid, and its controller is aborted only by its own
      deadline, at the moment the deadline falls due. */
  predicate AttemptOk(c: Call, a: Attempt, now: real) {
    && (a.sent <==> ValidLimit(c.limit))
    && (!a.sent ==> a.reply == Some(Bad(INVALID_TIMEOUT)))
    && (a.aborted ==> c.limit.Ms? && a.reply == Some(Bad(ABORT_ERROR)) && now >= a.issuedAt + c.limit.ms)
    && c.startedAt <= a.issuedAt <= now
  }

  /** At most two attempts, the second exactly when the first ended in a network error on the captured primary. */
  predicate AttemptsOk(c: Call, now: real) {
    && 1 <= |c.attempts| <= 2
    && c.attempts[0].url == c.url
    && c.attempts[0].issuedAt == c.startedAt
    && (forall k :: 0 <= k < |c.attempts| ==> AttemptOk(c, c.attempts[k], now))
    && (|c.attempts| == 2 ==> BadNetwork(c.attempts[0]) && c.url == c.primaryUrl)
    && (c.outcome.Some? && |c.attempts| == 1 ==> !(BadNetwork(c.attempts[0]) && c.url == c.primaryUrl))
  }

  predicate OutcomeOk(c: Call)
    requires |c.attempts| > 0
  {
    c.outcome.Some? ==> Last(c).reply.Some? && c.outcome.value == Boundary(c.limit, Last(c).reply.value)
  }

  /** What a timed call may take: its limit once for every attempt made, and nothing at all when refused. */
  predicate TimeOk(c: Call, now: real) {
    && (c.limit.Ms? && c.limit.ms > 0.0 && 1 <= |c.attempts| <= 2 ==>
      && Last(c).issuedAt <= c.startedAt + (if |c.attempts| == 2 then c.limit.ms else 0.0)
      && (if c.outcome.Some? then c.settledAt else now)
           <= c.startedAt + (if |c.attempts| == 2 then 2.0 * c.limit.ms else c.limit.ms))
    && (!ValidLimit(c.limit) ==> (if c.outcome.Some? then c.settledAt else now) == c.startedAt)
    && (c.outcome.None? && |c.attempts| > 0 && c.limit.Ms? && ValidLimit(c.limit) ==>
      now <= Last(c).issuedAt + c.limit.ms)
  }

  predicate CallOk(c: Call, now: real) {
    AttemptsOk(c, now) && OutcomeOk(c) && TimeOk(c, now)
  }

  ghost predicate CallsOk(s: Sys) {
    forall id <- s.calls :: CallOk(s.calls[id], s.now)
  }

  lemma ReplyKeepsOk(s: Sys, id: nat, reply: Reply, aborted: bool)
    requires id in s.calls && CallOk(s.calls[id], s.now) && Running(s.calls[id])
    requires aborted ==> s.calls[id].limit.Ms? && reply == Bad(ABORT_ERROR)
    requires aborted ==> s.now >= Last(s.calls[id]).issuedAt + s.calls[id].limit.ms
    ensures CallOk(WithReply(s, id, reply, aborted).calls[id], s.now)
  {
    var c := s.calls[id];
    var d := WithReply(s, id, reply, aborted).calls[id];
    forall k | 0 <= k < |d.attempts| ensures AttemptOk(d, d.attempts[k], s.now) {
      assert AttemptOk(c, c.attempts[k], s.now);
    }
  }

  lemma RetryKeepsOk(s: Sys, c: Call, url: string)
    requires CallOk(c, s.now) && Queued(c) && |c.attempts| == 1 && BadNetwork(c.attempts[0]) && c.url == c.primaryUrl
    ensures CallOk(c.(attempts := c.attempts + [NewAttempt(url, s.now, c.limit)]), s.now)
  {
    var d := c.(attempts := c.attempts + [NewAttempt(url, s.now, c.limit)]);
    assert d.attempts[0] == c.attempts[0];
    forall k | 0 <= k < 2 ensures AttemptOk(d, d.attempts[k], s.now) {
      assert AttemptOk(c, c.attempts[0], s.now);
    }
  }

  lemma SettleKeepsOk(s: Sys, c: Call)
    requires CallOk(c, s.now) && Queued(c)
    requires |c.attempts| == 2 || !(BadNetwork(c.attempts[0]) && c.url == c.primaryUrl)
    ensures CallOk(c.(outcome := Some(Boundary(c.limit, Last(c).reply.value)), settledAt := s.now), s.now)
  {
    var d := c.(outcome := Some(Boundary(c.limit, Last(c).reply.value)), settledAt := s.now);
    forall k | 0 <= k < |d.attempts| ensures AttemptOk(d, d.attempts[k], s.now) {
      assert AttemptOk(c, c.attempts[k], s.now);
    }
  }

  lemma ContinueKeepsOk(s: Sys, id: nat)
    requires id in s.calls && CallOk(s.calls[id], s.now) && Queued(s.calls[id])
    ensures id in Continue(s, id).calls && CallOk(Continue(s, id).calls[id], s.now)
  {
    var c := s.calls[id];
    if |c.attempts| == 1 && BadNetwork(c.attempts[0]) && c.url == c.primaryUrl {
      RetryKeepsOk(s, c, BaseUrl(s.node.fallback));
    } else {
      SettleKeepsOk(s, c);
    }
  }

  lemma WaitKeepsOk(c: Call, now: real, until: real)
    requires CallOk(c, now) && MayWait(c, until) && now <= until
    ensures CallOk(c, until)
  {
    forall k | 0 <= k < |c.attempts| ensures AttemptOk(c, c.attempts[k], until) {
      assert AttemptOk(c, c.attempts[k], now);
    }
  }

  /** Only five kinds of events touch the calls or the clock. */
  lemma CallsUntouched(s: Sys, e: Event)
    requires !e.Start? && !e.Answer? && !e.DeadlineFires? && !e.Catch? && !e.Advance?
    ensures Step(s, e).calls == s.calls && Step(s, e).now == s.now
  {
  }

  lemma StartIsOk(s: Sys, id: nat, payload: Payload, limit: Limit)
    requires CallsOk(s) && id !in s.calls
    ensures CallsOk(Step(s, Start(id, payload, limit)))
  {
  }

  lemma OthersKept(s: Sys, id: nat, t: Sys)
    requires CallsOk(s) && t.now == s.now && id in t.calls && CallOk(t.calls[id], s.now)
    requires forall k <- t.calls :: k != id ==> k in s.calls && t.calls[k] == s.calls[k]
    ensures CallsOk(t)
  {
  }

  lemma ReplyStepOk(s: Sys, id: nat, reply: Reply, aborted: bool)
    requires CallsOk(s) && id in s.calls && Running(s.calls[id])
    requires aborted ==> s.calls[id].limit.Ms? && reply == Bad(ABORT_ERROR)
    requires aborted ==> s.now >= Last(s.calls[id]).issuedAt + s.calls[id].limit.ms
    ensures CallsOk(WithReply(s, id, reply, aborted))
  {
    ReplyKeepsOk(s, id, reply, aborted);
    OthersKept(s, id, WithReply(s, id, reply, aborted));
  }

  lemma ContinueStepOk(s: Sys, id: nat)
    requires CallsOk(s) && id in s.calls && Queued(s.calls[id])
    ensures CallsOk(Continue(s, id))
  {
    ContinueKeepsOk(s, id);
    OthersKept(s, id, Continue(s, id));
  }

  lemma WaitStepOk(s: Sys, dt: real)
    requires CallsOk(s) && dt >= 0.0 && forall id <- s.calls :: MayWait(s.calls[id], s.now + dt)
    ensures CallsOk(s.(now := s.now + dt))
  {
    forall id | id in s.calls ensures CallOk(s.calls[id], s.now + dt) {
      WaitKeepsOk(s.calls[id], s.now, s.now + dt);
    }
  }

  lemma CallsOkStep(s: Sys, e: Event)
    requires CallsOk(s)
    ensures CallsOk(Step(s, e))
  {
    if Enabled(s, e) {
      match e
      case Start(id, payload, limit) => StartIsOk(s, id, payload, limit);
      case Answer(id, reply) => ReplyStepOk(s, id, reply, false);
      case DeadlineFires(id) => ReplyStepOk(s, id, Bad(ABORT_ERROR), true);
      case Catch(id) => ContinueStepOk(s, id);
      case Advance(dt) => WaitStepOk(s, dt);
      case _ => CallsUntouched(s, e);
    }
  }

  lemma {:induction false} CallsOkRun(es: seq<Event>)
    ensures CallsOk(Run(es))
  {
    if es != [] {
      CallsOkRun(es[..|es| - 1]);
      CallsOkStep(Run(es[..|es| - 1]), es[|es| - 1]);
    }
  }

  /** How a reply settles a call: its value is passed on, an abort of a timed call is a timeout, and any other error is
      raised as it is. */
  predicate SettledBy(limit: Limit, reply: Reply, outcome: Outcome) {
    match reply
    case Good(v) => outcome == Value(v)
    case Bad(e) => if e.abortName && !limit.Untimed? then outcome == Timeout else outcome == Raised(e)
  }

  /** Every call of every run: at most two attempts; once it has settled, it made the second exactly when the
      first ended in a network error and the URL captured at entry was the captured primary URL; its last attempt
      settles it; and an attempt that its own deadline aborted is a timeout. */
  lemma CallContract(es: seq<Event>, id: nat)
    requires id in Run(es).calls
    ensures var c := Run(es).calls[id];
      && 1 <= |c.attempts| <= 2
      && (c.outcome.Some? ==>
        && (|c.attempts| == 2 <==> BadNetwork(c.attempts[0]) && c.url == c.primaryUrl)
        && Last(c).reply.Some?
        && SettledBy(c.limit, Last(c).reply.value, c.outcome.value)
        && (Last(c).aborted ==> c.outcome.value == Timeout))
  {
    CallsOkRun(es);
    var c := Run(es).calls[id];
    assert CallOk(c, Run(es).now) && AttemptOk(c, c.attempts[|c.attempts| - 1], Run(es).now);
  }

  /** Chain requests are sent only for calls whose limit is valid. */
  ghost predicate SentValid(s: Sys) {
    forall r <- s.sent :: r.Chain? ==> r.id in s.calls && ValidLimit(s.calls[r.id].limit)
  }

  lemma LimitsKept(s: Sys, e: Event)
    ensures s.calls.Keys <= Step(s, e).calls.Keys
    ensures forall id <- s.calls :: Step(s, e).calls[id].limit == s.calls[id].limit
  {
  }

  lemma SentStep(s: Sys, e: Event)
    requires SentValid(s)
    ensures SentValid(Step(s, e))
  {
    LimitsKept(s, e);
  }

  lemma {:induction false} SentRun(es: seq<Event>)
    ensures SentValid(Run(es))
  {
    if es != [] {
      SentRun(es[..|es| - 1]);
      SentStep(Run(es[..|es| - 1]), es[|es| - 1]);
    }
  }

  /** When a call has settled, or the present time. */
  function EndOf(c: Call, now: real): real {
    if c.outcome.Some? then c.settledAt else now
  }

  /** A client method with a valid limit has settled within twice its limit, and within its limit when it was
      started away from its primary; an attempt's controller is aborted only once that attempt's own deadline
      has come. */
  lemma CallDeadlines(es: seq<Event>, id: nat)
    requires id in Run(es).calls && Run(es).calls[id].limit.Ms? && ValidLimit(Run(es).calls[id].limit)
    ensures var c, now := Run(es).calls[id], Run(es).now;
      && EndOf(c, now) <= c.startedAt + 2.0 * c.limit.ms
      && (c.url != c.primaryUrl ==> EndOf(c, now) <= c.startedAt + c.limit.ms)
      && forall a <- c.attempts ::
        a.aborted ==> a.reply == Some(Bad(ABORT_ERROR)) && now >= a.issuedAt + c.limit.ms
  {
    CallsOkRun(es);
    var c := Run(es).calls[id];
    assert CallOk(c, Run(es).now);
    forall a | a in c.attempts ensures AttemptOk(c, a, Run(es).now) {
    }
  }

  /** With a limit that is not a finite positive number the call settles at once with the validation error, and nothing
      is ever sent for it. */
  lemma RefusedCall(es: seq<Event>, id: nat)
    requires id in Run(es).calls && !ValidLimit(Run(es).calls[id].limit)
    ensures var c := Run(es).calls[id];
      && EndOf(c, Run(es).now) == c.startedAt
      && (c.outcome.Some? ==> c.outcome == Some(Raised(INVALID_TIMEOUT)))
    ensures forall r <- Run(es).sent :: r.Chain? ==> r.id != id
  {
    CallsOkRun(es);
    SentRun(es);
    var c := Run(es).calls[id];
    assert CallOk(c, Run(es).now);
    assert AttemptOk(c, c.attempts[|c.attempts| - 1], Run(es).now);
  }

  /** The continuation of a first attempt that failed with a network error on the captured primary sends the
      retry to the fallback configured when it runs, whatever happened since the call began; a continuation
      in any other state, and any step of a call whose limit is invalid, sends nothing and leaves the node
      variables alone. */
  lemma RetryTarget(es: seq<Event>, i: nat, id: nat)
    requires i < |es| && es[i] == Catch(id) && Enabled(Run(es[..i]), es[i])
    ensures var s, t := Run(es[..i]), Run(es[..i + 1]); var c := s.calls[id];
      id in t.calls &&
      if |c.attempts| == 1 && BadNetwork(c.attempts[0]) && c.url == c.primaryUrl then
        && t.sent == s.sent + [Chain(id, BaseUrl(s.node.fallback), c.payload)]
        && t.calls[id].attempts == c.attempts + [Attempt(BaseUrl(s.node.fallback), s.now, true, false, None)]
        && t.node.current == s.node.fallback
      else
        t.sent == s.sent && t.node == s.node && t.calls[id].outcome.Some?
  {
    assert es[..i + 1][..i] == es[..i];
    CallsOkRun(es[..i]);
    assert CallOk(Run(es[..i]).calls[id], Run(es[..i]).now);
  }

  // ---------- The mempool ----------

  ghost predicate SentBy(s: Sys, r: Request) {
    r.Chain? ==> r.id in s.calls && r.payload == s.calls[r.id].payload
  }

  ghost predicate MempoolInv(s: Sys) {
    && (forall r <- s.sent :: SentBy(s, r))
    && s.mempool.Keys <= Hashes(s)
  }

  ghost function Hashes(s: Sys): set<string> {
    set id | id in s.calls :: s.calls[id].payload.hash
  }

  lemma PayloadsKept(s: Sys, e: Event)
    ensures s.calls.Keys <= Step(s, e).calls.Keys
    ensures forall id <- s.calls :: Step(s, e).calls[id].payload == s.calls[id].payload
  {
  }

  lemma MempoolStep(s: Sys, e: Event)
    requires MempoolInv(s)
    ensures MempoolInv(Step(s, e))
  {
    PayloadsKept(s, e);
    var t := Step(s, e);
    forall r | r in t.sent ensures SentBy(t, r) {
      assert r in s.sent ==> SentBy(s, r);
    }
    forall h | h in t.mempool ensures h in Hashes(t) {
      if h in s.mempool {
        var id :| id in s.calls && h == s.calls[id].payload.hash;
        assert id in t.calls && h == t.calls[id].payload.hash;
      } else {
        assert SentBy(s, s.sent[e.k]);
      }
    }
  }

  lemma {:induction false} MempoolRun(es: seq<Event>)
    ensures MempoolInv(Run(es))
  {
    if es != [] {
      MempoolRun(es[..|es| - 1]);
      MempoolStep(Run(es[..|es| - 1]), es[|es| - 1]);
    }
  }

  lemma {:induction false} ImageNoLarger(ids: set<nat>, hash: nat -> string)
    ensures |set id | id in ids :: hash(id)| <= |ids|
  {
    var image := set id | id in ids :: hash(id);
    if ids != {} {
      var id :| id in ids;
      var rest := ids - {id};
      ImageNoLarger(rest, hash);
      assert image == (set k | k in rest :: hash(k)) + {hash(id)};
    } else {
      assert image == {};
    }
  }

  /** However its requests are repeated and delivered, a call adds at most one entry to a mempool keyed by
      request key: all its requests carry the payload it was started with, every entry is the request key of
      some call, and there are never more entries than calls. */
  lemma MempoolDedup(es: seq<Event>)
    ensures var s := Run(es);
      && (forall r <- s.sent :: r.Chain? ==> r.id in s.calls && r.payload == s.calls[r.id].payload)
      && (forall h <- s.mempool :: exists id :: id in s.calls && h == s.calls[id].payload.hash)
      && |s.mempool| <= |s.calls|
  {
    var s := Run(es);
    MempoolRun(es);
    forall r | r in s.sent ensures r.Chain? ==> r.id in s.calls && r.payload == s.calls[r.id].payload {
      assert SentBy(s, r);
    }
    var hash := (id: nat) => if id in s.calls then s.calls[id].payload.hash else "";
    ImageNoLarger(s.calls.Keys, hash);
    assert Hashes(s) == set id | id in s.calls.Keys :: hash(id);
    SubsetSize(s.mempool.Keys, Hashes(s));
  }
}
