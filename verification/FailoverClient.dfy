/**
 The deadline of a single attempt, as `runWithTimeout` runs it: a fresh AbortController, a worker that may
 settle or hang, and a timer that aborts the controller. The whole-run model takes the outcome of this race
 as its events; the lemmas at the end show that it produces exactly the outcomes computed here.
 */
module FailoverClient {
  import opened Wrappers
  import opened NodeFailover
  import opened FailoverRuns
  import opened FailoverCalls
  import opened FailoverProgress

  class AbortController {
    var aborted: bool

    constructor ()
      ensures !aborted
    {
      aborted := false;
    }

    method Abort()
      modifies this
      ensures aborted
    {
      aborted := true;
    }
  }

  /** When the worker settles after being called (never, if it hangs), with what, and whether its settling is
      queued ahead of a timer that is due at the same moment. */
  datatype Worker = Worker(after: Option<real>, reply: Reply, ahead: bool)

  predicate BeatsDeadline(w: Worker, ms: real) {
    w.after.Some? && (w.after.value < ms || (w.after.value == ms && w.ahead))
  }

  /** What the race settles with, after how long, and whether the controller is aborted. */
  datatype Race = Race(reply: Reply, at: real, aborted: bool)

  function RaceOf(w: Worker, ms: real): Race {
    if BeatsDeadline(w, ms) then Race(w.reply, w.after.value, false) else Race(Bad(ABORT_ERROR), ms, true)
  }

  /** The method returns what the race settles with, when, and the controller it made, if it made one. */
  method RunWithTimeout(limit: Limit, worker: Worker) returns (reply: Reply, at: real, controller: AbortController?)
    requires !limit.Untimed?
    requires worker.after.Some? ==> worker.after.value >= 0.0
    ensures !ValidLimit(limit) ==> controller == null && reply == Bad(INVALID_TIMEOUT) && at == 0.0
    ensures ValidLimit(limit) ==>
      controller != null && fresh(controller) && Race(reply, at, controller.aborted) == RaceOf(worker, limit.ms)
  {
    controller := null;
    if !(limit.Ms? && limit.ms > 0.0) {
      return Bad(INVALID_TIMEOUT), 0.0, null;
    }
    controller := new AbortController();
    if worker.after.Some? && (worker.after.value < limit.ms || (worker.after.value == limit.ms && worker.ahead)) {
      // The worker wins the race; the timer is cleared.
      reply, at := worker.reply, worker.after.value;
    } else {
      controller.Abort();
      reply, at := Bad(ABORT_ERROR), limit.ms;
    }
  }

  /** The event with which the race between the call's attempt and its deadline is over. */
  function Finish(id: nat, race: Race): Event {
    if race.aborted then DeadlineFires(id) else Answer(id, race.reply)
  }

  lemma ToCatch(s: Sys, id: nat, k: nat)
    requires CallsOk(s) && Awaited(s, id) && k in s.calls && Queued(s.calls[k])
    ensures var t := Step(s, Catch(k));
      CallsOk(t) && id in t.calls && t.calls[id] == s.calls[id] && t.now == s.now && Total(t.calls) < Total(s.calls)
  {
    CatchDrops(s, k);
    ContinueDrops(s, k);
    CallsOkStep(s, Catch(k));
    assert Step(s, Catch(k)) == Continue(s, k) && k != id;
  }

  lemma ToDeadline(s: Sys, id: nat, k: nat)
    requires CallsOk(s) && Awaited(s, id) && Awaited(s, k) && k != id && s.now == Due(s.calls[k])
    ensures var t := Step(s, DeadlineFires(k));
      CallsOk(t) && id in t.calls && t.calls[id] == s.calls[id] && t.now == s.now && Total(t.calls) < Total(s.calls)
  {
    FireDrops(s, k);
    CallsOkStep(s, DeadlineFires(k));
    assert Step(s, DeadlineFires(k)) == WithReply(s, k, Bad(ABORT_ERROR), true);
  }

  lemma ToWait(s: Sys, until: real)
    requires s.now <= until && forall k <- s.calls :: !Queued(s.calls[k])
    requires forall k :: Awaited(s, k) ==> until <= Due(s.calls[k])
    ensures Step(s, Advance(until - s.now)) == s.(now := until)
  {
    forall k | k in s.calls ensures MayWait(s.calls[k], s.now + (until - s.now)) {
      assert Running(s.calls[k]) && s.calls[k].limit.Ms? ==> Awaited(s, k);
    }
    assert Enabled(s, Advance(until - s.now));
  }

  /** The events lead to the given time with the call unchanged, without an answer from outside. */
  ghost predicate Reaches(s: Sys, fs: seq<Event>, id: nat, c: Call, until: real) {
    && (forall e <- fs :: Internal(e))
    && var t := RunFrom(s, fs); id in t.calls && t.calls[id] == c && t.now == until
  }

  lemma ReachesVia(s: Sys, e: Event, rest: seq<Event>, id: nat, c: Call, until: real)
    requires Internal(e) && Reaches(Step(s, e), rest, id, c, until)
    ensures Reaches(s, [e] + rest, id, c, until)
  {
    RunCons(s, e, rest);
  }

  lemma NextDeadline(s: Sys, until: real, k: nat) returns (first: nat)
    requires CallsOk(s) && Awaited(s, k) && Due(s.calls[k]) < until
    ensures Awaited(s, first) && s.now <= Due(s.calls[first]) < until
    ensures forall j :: Awaited(s, j) ==> Due(s.calls[first]) <= Due(s.calls[j])
  {
    var ids := set j | j in s.calls && Awaited(s, j);
    assert k in ids;
    first := Earliest(s, ids);
    assert forall j :: Awaited(s, j) ==> j in ids;
    assert CallOk(s.calls[first], s.now);
  }

  /** The earliest deadline that falls due before the given time is not the call's own, and can be let fire. */
  lemma OtherDeadline(s: Sys, id: nat, until: real, k: nat) returns (wait: Event, fire: Event)
    requires CallsOk(s) && Awaited(s, id) && until <= Due(s.calls[id])
    requires (forall j <- s.calls :: !Queued(s.calls[j])) && Awaited(s, k) && Due(s.calls[k]) < until
    ensures Internal(wait) && Internal(fire)
    ensures var t := Step(Step(s, wait), fire);
      && CallsOk(t) && id in t.calls && t.calls[id] == s.calls[id] && s.now <= t.now <= until
      && Total(t.calls) < Total(s.calls)
  {
    var first := NextDeadline(s, until, k);
    wait, fire := Advance(Due(s.calls[first]) - s.now), DeadlineFires(first);
    ToWait(s, Due(s.calls[first]));
    CallsOkStep(s, wait);
    ToDeadline(Step(s, wait), id, first);
  }

  /** Any time up to an attempt's deadline can be reached with the attempt still running: the continuations and the
      deadlines of the other calls come in between. */
  lemma {:induction false} Reach(s: Sys, id: nat, until: real) returns (fs: seq<Event>)
    requires CallsOk(s) && Awaited(s, id) && s.now <= until <= Due(s.calls[id])
    ensures Reaches(s, fs, id, s.calls[id], until)
    decreases Total(s.calls)
  {
    if k :| k in s.calls && Queued(s.calls[k]) {
      ToCatch(s, id, k);
      fs := Reach(Step(s, Catch(k)), id, until);
      ReachesVia(s, Catch(k), fs, id, s.calls[id], until);
      fs := [Catch(k)] + fs;
    } else if k :| Awaited(s, k) && Due(s.calls[k]) < until {
      var wait, fire := OtherDeadline(s, id, until, k);
      fs := Reach(Step(Step(s, wait), fire), id, until);
      ReachesVia(Step(s, wait), fire, fs, id, s.calls[id], until);
      ReachesVia(s, wait, [fire] + fs, id, s.calls[id], until);
      fs := [wait] + ([fire] + fs);
    } else {
      ToWait(s, until);
      fs := [];
      ReachesVia(s, Advance(until - s.now), fs, id, s.calls[id], until);
      fs := [Advance(until - s.now)] + fs;
    }
  }

  /** Every race can be run in the whole-run model, whatever other calls are in progress: from the state in which an
      attempt has just been issued the time of the race can be reached with the attempt still running, and then the
      attempt ends with the reply and the controller of the race. */
  lemma RaceIsRun(es: seq<Event>, id: nat, ms: real, w: Worker) returns (fs: seq<Event>)
    requires Awaited(Run(es), id) && Run(es).calls[id].limit == Ms(ms)
    requires Last(Run(es).calls[id]).issuedAt == Run(es).now
    requires w.after.Some? ==> w.after.value >= 0.0
    ensures var race, s, u := RaceOf(w, ms), Run(es), Run(es + fs);
      && u.now == s.now + race.at && id in u.calls && u.calls[id] == s.calls[id]
      && Enabled(u, Finish(id, race))
    ensures var race, u := RaceOf(w, ms), Run(es + fs); var t := Step(u, Finish(id, race));
      && id in t.calls && |t.calls[id].attempts| == |u.calls[id].attempts| > 0
      && Last(t.calls[id]).reply == Some(race.reply) && Last(t.calls[id]).aborted == race.aborted
  {
    var s, race := Run(es), RaceOf(w, ms);
    CallsOkRun(es);
    assert CallOk(s.calls[id], s.now);
    fs := Reach(s, id, s.now + race.at);
    RunSplit(START, es + fs, |es|);
    assert (es + fs)[..|es|] == es && (es + fs)[|es|..] == fs;
  }

  /** And nothing else can be: in any state of any run, the event that ends an attempt gives it the outcome of a
      race. */
  lemma OnlyRacesRun(es: seq<Event>, id: nat, ms: real, e: Event) returns (w: Worker)
    requires var s := Run(es); id in s.calls && Running(s.calls[id]) && s.calls[id].limit == Ms(ms)
    requires Enabled(Run(es), e) && (e.DeadlineFires? || e.Answer?) && e.id == id
    ensures w.after.Some? ==> w.after.value >= 0.0
    ensures var s, t := Run(es), Step(Run(es), e);
      && id in t.calls && |t.calls[id].attempts| == |s.calls[id].attempts| > 0
      && Last(t.calls[id]).reply.Some?
      && var a := Last(t.calls[id]);
        RaceOf(w, ms) == Race(a.reply.value, s.now - Last(s.calls[id]).issuedAt, a.aborted)
  {
    var s := Run(es);
    CallsOkRun(es);
    var c := s.calls[id];
    assert CallOk(c, s.now) && AttemptOk(c, c.attempts[|c.attempts| - 1], s.now);
    if e.Answer? {
      w := Worker(Some(s.now - Last(c).issuedAt), e.reply, true);
    } else {
      w := Worker(None, Bad(ABORT_ERROR), false);
    }
  }
}
