/** Nothing blocks for ever: without any answer from the network, every timed call settles and time goes on. */
module FailoverProgress {
  import opened Wrappers
  import opened Seqs
  import opened NodeFailover
  import opened FailoverRuns
  import opened FailoverCalls

  /** Events that need no answer from outside. */
  predicate Internal(e: Event) {
    e.Catch? || e.DeadlineFires? || e.Advance?
  }

  /** How many continuations and deadlines a call can still go through. */
  function Weight(c: Call): nat {
    if c.outcome.Some? then 0
    else (if |c.attempts| >= 2 then 0 else 2) + (if Queued(c) then 1 else 2)
  }

  ghost function Total(calls: map<nat, Call>): nat
    decreases |calls|
  {
    if calls == map[] then 0
    else
      var id :| id in calls;
      Weight(calls[id]) + Total(calls - {id})
  }

  lemma {:induction false} TotalSplit(calls: map<nat, Call>, id: nat)
    requires id in calls
    ensures Total(calls) == Weight(calls[id]) + Total(calls - {id})
    decreases |calls|
  {
    var k :| k in calls && Total(calls) == Weight(calls[k]) + Total(calls - {k});
    if k != id {
      TotalSplit(calls - {k}, id);
      TotalSplit(calls - {id}, k);
      assert calls - {k} - {id} == calls - {id} - {k};
    }
  }

  lemma TotalDrops(calls: map<nat, Call>, id: nat, c: Call)
    requires id in calls && Weight(c) < Weight(calls[id])
    ensures Total(calls[id := c]) < Total(calls)
  {
    TotalSplit(calls, id);
    TotalSplit(calls[id := c], id);
    assert calls[id := c] - {id} == calls - {id};
  }

  lemma RunCons(s: Sys, e: Event, rest: seq<Event>)
    ensures RunFrom(s, [e] + rest) == RunFrom(Step(s, e), rest)
  {
    RunSplit(s, [e] + rest, 1);
    assert ([e] + rest)[..1] == [] + [e] && ([e] + rest)[1..] == rest;
    RunStep(s, [], e);
  }

  /** A step without answers keeps the calls and their limits, and does not turn time back. */
  predicate Continues(s: Sys, t: Sys) {
    && t.calls.Keys == s.calls.Keys
    && (forall id <- s.calls :: t.calls[id].limit == s.calls[id].limit)
    && s.now <= t.now
  }

  lemma OneChanged(s: Sys, t: Sys, id: nat, c: Call)
    requires id in s.calls && t.calls == s.calls[id := c] && c.limit == s.calls[id].limit && s.now <= t.now
    requires Weight(c) < Weight(s.calls[id])
    ensures Continues(s, t) && Total(t.calls) < Total(s.calls)
  {
    TotalDrops(s.calls, id, c);
  }

  lemma CatchDrops(s: Sys, id: nat)
    requires CallsOk(s) && id in s.calls && Queued(s.calls[id])
    ensures var t := Step(s, Catch(id)); Continues(s, t) && Total(t.calls) < Total(s.calls)
  {
    var t := Continue(s, id);
    ContinueDrops(s, id);
    OneChanged(s, t, id, t.calls[id]);
  }

  lemma ContinueDrops(s: Sys, id: nat)
    requires id in s.calls && CallOk(s.calls[id], s.now) && Queued(s.calls[id])
    ensures var t := Continue(s, id);
      && id in t.calls && t.calls == s.calls[id := t.calls[id]] && t.now == s.now
      && t.calls[id].limit == s.calls[id].limit
      && Weight(t.calls[id]) < Weight(s.calls[id])
  {
    var c := s.calls[id];
    if |c.attempts| == 1 && BadNetwork(c.attempts[0]) && c.url == c.primaryUrl {
      assert |Continue(s, id).calls[id].attempts| == 2;
    } else {
      assert Continue(s, id).calls[id].outcome.Some?;
    }
  }

  /** When the deadline of a running call falls due. */
  function Due(c: Call): real {
    if c.limit.Ms? && |c.attempts| > 0 then Last(c).issuedAt + c.limit.ms else 0.0
  }

  predicate Awaited(s: Sys, id: nat) {
    id in s.calls && Running(s.calls[id]) && s.calls[id].limit.Ms?
  }

  lemma {:induction false} Earliest(s: Sys, ids: set<nat>) returns (id: nat)
    requires ids != {} && forall k <- ids :: k in s.calls
    ensures id in ids && forall k <- ids :: Due(s.calls[id]) <= Due(s.calls[k])
  {
    id :| id in ids;
    var others := ids - {id};
    assert ids == others + {id};
    if others != {} {
      var other: nat := Earliest(s, others);
      id := if Due(s.calls[other]) < Due(s.calls[id]) then other else id;
    }
  }

  /** When no continuation is queued, the earliest deadline can be waited for. */
  lemma CanWait(s: Sys, id: nat)
    requires CallsOk(s) && forall k <- s.calls :: !Queued(s.calls[k])
    requires Awaited(s, id) && forall k :: Awaited(s, k) ==> Due(s.calls[id]) <= Due(s.calls[k])
    ensures s.now <= Due(s.calls[id])
    ensures Step(s, Advance(Due(s.calls[id]) - s.now)) == s.(now := Due(s.calls[id]))
  {
    var dt := Due(s.calls[id]) - s.now;
    assert CallOk(s.calls[id], s.now);
    assert dt >= 0.0;
    forall k | k in s.calls ensures MayWait(s.calls[k], s.now + dt) {
      assert Running(s.calls[k]) && s.calls[k].limit.Ms? ==> Awaited(s, k);
    }
    assert s.now + dt == Due(s.calls[id]);
  }

  /** And then it fires. */
  lemma FireDrops(s: Sys, id: nat)
    requires CallsOk(s) && Awaited(s, id) && s.now == Due(s.calls[id])
    ensures var t := Step(s, DeadlineFires(id)); Continues(s, t) && Total(t.calls) < Total(s.calls)
  {
    var t := WithReply(s, id, Bad(ABORT_ERROR), true);
    assert Step(s, DeadlineFires(id)) == t;
    assert Queued(t.calls[id]);
    OneChanged(s, t, id, t.calls[id]);
  }

  /** Every call has settled, or is waiting for an answer that it has no deadline for. */
  ghost predicate Quiescent(s: Sys) {
    forall id <- s.calls :: s.calls[id].outcome.None? ==> s.calls[id].limit.Untimed? && Running(s.calls[id])
  }

  lemma QuiescentIf(s: Sys)
    requires CallsOk(s) && (forall id <- s.calls :: !Queued(s.calls[id])) && forall id :: !Awaited(s, id)
    ensures Quiescent(s)
  {
    forall id | id in s.calls && s.calls[id].outcome.None?
      ensures s.calls[id].limit.Untimed? && Running(s.calls[id])
    {
      var c := s.calls[id];
      assert CallOk(c, s.now) && AttemptOk(c, c.attempts[|c.attempts| - 1], s.now);
      assert !Awaited(s, id);
    }
  }

  /** The events lead to a state in which every timed call has settled. */
  ghost predicate Settles(s: Sys, fs: seq<Event>) {
    && (forall e <- fs :: Internal(e))
    && var t := RunFrom(s, fs); Continues(s, t) && CallsOk(t) && Quiescent(t)
  }

  lemma SettlesVia(s: Sys, e: Event, rest: seq<Event>)
    requires Internal(e) && Continues(s, Step(s, e)) && Settles(Step(s, e), rest)
    ensures Settles(s, [e] + rest)
  {
    RunCons(s, e, rest);
  }

  /** From a state whose calls are in order, continuations, deadlines and waiting alone lead to one in which every timed
      call has settled. */
  lemma {:induction false} Settle(s: Sys) returns (fs: seq<Event>)
    requires CallsOk(s)
    ensures Settles(s, fs)
    decreases Total(s.calls)
  {
    if id :| id in s.calls && Queued(s.calls[id]) {
      var e := Catch(id);
      CatchDrops(s, id);
      CallsOkStep(s, e);
      fs := Settle(Step(s, e));
      SettlesVia(s, e, fs);
      fs := [e] + fs;
    } else if k :| Awaited(s, k) {
      var ids := set id | id in s.calls && Awaited(s, id);
      assert k in ids;
      var id := Earliest(s, ids);
      assert forall k :: Awaited(s, k) ==> k in ids;
      var wait, fire := Advance(Due(s.calls[id]) - s.now), DeadlineFires(id);
      CanWait(s, id);
      var u := Step(s, wait);
      CallsOkStep(s, wait);
      FireDrops(u, id);
      CallsOkStep(u, fire);
      fs := Settle(Step(u, fire));
      SettlesVia(u, fire, fs);
      SettlesVia(s, wait, [fire] + fs);
      fs := [wait] + ([fire] + fs);
    } else {
      fs := [];
      QuiescentIf(s);
    }
  }

  /** No reachable state is stuck: even if the network never answers again, every timed call settles and any amount of
      time can pass; and a call that is left over is an untimed one, which an answer would move on at once. */
  lemma NoTimelock(es: seq<Event>, d: real) returns (fs: seq<Event>)
    requires d >= 0.0
    ensures forall e <- fs :: Internal(e)
    ensures var s, t := Run(es), Run(es + fs);
      && s.now + d <= t.now
      && t.calls.Keys == s.calls.Keys
      && forall id <- s.calls :: t.calls[id].limit == s.calls[id].limit
           && (t.calls[id].outcome.None? ==> t.calls[id].limit.Untimed? && forall r :: Enabled(t, Answer(id, r)))
  {
    CallsOkRun(es);
    var gs := Settle(Run(es));
    var u := RunFrom(Run(es), gs);
    fs := gs + [Advance(d)];
    RunStep(Run(es), gs, Advance(d));
    RunSplit(START, es + fs, |es|);
    assert (es + fs)[..|es|] == es && (es + fs)[|es|..] == fs;
    forall id | id in u.calls ensures MayWait(u.calls[id], u.now + d) {
      assert u.calls[id].outcome.None? ==> u.calls[id].limit.Untimed? && Running(u.calls[id]);
    }
    assert Run(es + fs) == u.(now := u.now + d);
  }
}
