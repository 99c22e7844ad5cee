/** Restarting exited panes: a bounded number of attempts with growing delays. Times are in milliseconds. */
module RestartBudget {
  import opened Prelude

  const MAX_RESTART_RETRIES := 10
  const HEALTHY_AFTER := 30_000
  const FIRST_DELAY := 2_000

  datatype Policy = Never | OnFailure | Always

  /** What the table shows of a pane: whether its program runs, and otherwise how it ended. */
  datatype Pane = Pane(alive: bool, exit: Option<nat>)

  datatype Retry = Retry(last: int, count: nat)

  predicate RestartAllowed(policy: Policy, exit: Option<nat>) {
    match policy
    case Never => false
    case Always => true
    case OnFailure => exit != Some(0)
  }

  /** The wait before the next attempt after `count` attempts. */
  function Delay(count: nat): nat {
    2_000 * Max(SatSub(count, 2), 1)
  }

  /** The clock readings for one pane in one pass, in the order they are taken, and whether the spawn succeeds. */
  datatype Readings = Readings(sweep: nat, insert: nat, check: nat, stamp: nat, spawned: bool) {
    predicate Ordered(since: nat) {
      since <= sweep <= insert <= check <= stamp
    }
  }

  /** The sweep at the start of a pass: an entry survives while its pane is down, or was restarted under 30 s ago. */
  function Swept(entry: Option<Retry>, pane: Option<Pane>, now: nat): Option<Retry> {
    if entry.Some? && pane.Some? && (!pane.value.alive || now - entry.value.last < HEALTHY_AFTER) then entry else None
  }

  predicate IsCandidate(pane: Option<Pane>, policy: Option<Policy>) {
    pane.Some? && !pane.value.alive && policy.Some? && RestartAllowed(policy.value, pane.value.exit)
  }

  /** A restart that is due: the entry after it, and whether it was attempted at all. */
  function Tried(kept: Option<Retry>, t: Readings): (Retry, bool) {
    var e := if kept.Some? then kept.value else Retry(t.insert - FIRST_DELAY, 0);
    if e.count >= MAX_RESTART_RETRIES || t.check - e.last < Delay(e.count) then (e, false)
    else (Retry(t.stamp, e.count + 1), true)
  }

  /** One pass over one pane: its new entry, and whether a restart was attempted. */
  function Pass(entry: Option<Retry>, pane: Option<Pane>, policy: Option<Policy>, t: Readings): (Option<Retry>, bool) {
    var kept := Swept(entry, pane, t.sweep);
    if !IsCandidate(pane, policy) then (kept, false)
    else
      var (e, attempted) := Tried(kept, t);
      (Some(e), attempted)
  }

  // ----- the retry table as it is updated in place -----

  function Lookup<V>(m: map<nat, V>, id: nat): Option<V> {
    if id in m then Some(m[id]) else None
  }

  class Restarter {
    var panes: map<nat, Pane>
    var retries: map<nat, Retry>

    constructor (panes: map<nat, Pane>)
      ensures this.panes == panes && retries == map[]
    {
      this.panes, retries := panes, map[];
    }

    /** Drops the entries that no longer hold anyone back. */
    method Sweep(times: map<nat, Readings>)
      requires retries.Keys <= times.Keys
      modifies this`retries
      ensures forall id :: Lookup(retries, id)
                        == if id in times then Swept(Lookup(old(retries), id), Lookup(panes, id), times[id].sweep) else None
    {
      retries := map id | id in retries && Swept(Some(retries[id]), Lookup(panes, id), times[id].sweep).Some? :: retries[id];
    }

    /** Tries to restart one exited pane if it is due; a failed spawn uses up an attempt too. */
    method RestartOne(id: nat, t: Readings) returns (restarted: bool)
      modifies this
      ensures retries == old(retries)[id := Tried(Lookup(old(retries), id), t).0]
      ensures restarted == (Tried(Lookup(old(retries), id), t).1 && t.spawned)
      ensures panes == if restarted then old(panes)[id := Pane(true, None)] else old(panes)
    {
      var entry := if id in retries then retries[id] else Retry(t.insert - FIRST_DELAY, 0);
      retries := retries[id := entry];
      if entry.count >= MAX_RESTART_RETRIES || t.check - entry.last < Delay(entry.count) {
        return false;
      }
      retries := retries[id := Retry(t.stamp, entry.count + 1)];
      if t.spawned {
        panes := panes[id := Pane(true, None)];
      }
      return t.spawned;
    }

    /** The attempt on one pane, had it been the only one. */
    static predicate Restarts(before: map<nat, Retry>, times: map<nat, Readings>, id: nat) {
      id in times && times[id].spawned && Tried(Lookup(before, id), times[id]).1
    }

    /** Tries each of the panes that are due a restart, in whatever order they come. */
    method RestartDue(due: set<nat>, times: map<nat, Readings>) returns (restarted: set<nat>)
      requires due <= panes.Keys && due <= times.Keys
      modifies this
      ensures retries.Keys == old(retries).Keys + due
      ensures forall id :: id in due ==> retries[id] == Tried(Lookup(old(retries), id), times[id]).0
      ensures forall id :: id in old(retries) && id !in due ==> retries[id] == old(retries)[id]
      ensures restarted <= due && forall id :: id in due ==> (id in restarted <==> Restarts(old(retries), times, id))
      ensures panes.Keys == old(panes).Keys
      ensures forall id :: id in panes ==> panes[id] == if id in restarted then Pane(true, None) else old(panes)[id]
    {
      ghost var before := retries;
      restarted := {};
      var tried: set<nat> := {};
      while tried != due
        invariant tried <= due && restarted <= tried && panes.Keys == old(panes).Keys
        invariant retries.Keys == before.Keys + tried
        invariant forall id :: id in tried ==> retries[id] == Tried(Lookup(before, id), times[id]).0
        invariant forall id :: id in before && id !in tried ==> retries[id] == before[id]
        invariant forall id :: id in tried ==> (id in restarted <==> Restarts(before, times, id))
        invariant forall id :: id in panes ==> panes[id] == if id in restarted then Pane(true, None) else old(panes)[id]
        decreases due - tried
      {
        var id :| id in due && id !in tried;
        var ok := RestartOne(id, times[id]);
        tried := tried + {id};
        if ok {
          restarted := restarted + {id};
        }
      }
    }

    /** One pass over the table. */
    method RestartPanes(policies: map<nat, Policy>, times: map<nat, Readings>) returns (restarted: set<nat>)
      requires retries.Keys <= times.Keys && panes.Keys <= times.Keys
      modifies this
      ensures panes.Keys == old(panes).Keys && retries.Keys <= times.Keys
      ensures forall id :: id in times ==>
                Lookup(retries, id) == Pass(Lookup(old(retries), id), Lookup(old(panes), id), Lookup(policies, id), times[id]).0
      ensures forall id :: id in times ==>
                (id in restarted <==>
                  times[id].spawned && Pass(Lookup(old(retries), id), Lookup(old(panes), id), Lookup(policies, id), times[id]).1)
      ensures forall id :: id in panes ==> panes[id] == if id in restarted then Pane(true, None) else old(panes)[id]
    {
      ghost var (oldRetries, oldPanes) := (retries, panes);
      Sweep(times);
      ghost var swept := retries;
      var due := set id | id in panes && IsCandidate(Some(panes[id]), Lookup(policies, id));
      restarted := RestartDue(due, times);
      forall id | id in times
        ensures var (entry, tried) := Pass(Lookup(oldRetries, id), Lookup(oldPanes, id), Lookup(policies, id), times[id]);
                Lookup(retries, id) == entry && (id in restarted <==> times[id].spawned && tried)
      {
        assert Lookup(swept, id) == Swept(Lookup(oldRetries, id), Lookup(oldPanes, id), times[id].sweep);
        if id in due {
          assert Lookup(retries, id) == Some(Tried(Lookup(swept, id), times[id]).0);
        } else {
          assert Lookup(retries, id) == Lookup(swept, id);
        }
      }
    }
  }

  // ----- one pane over time -----

  /** One pass as one pane sees it. */
  datatype Observation = Observation(pane: Option<Pane>, policy: Option<Policy>, times: Readings)

  /** The entry of one pane, the times of the attempts it stands for, and the latest clock reading. */
  datatype Trace = Trace(entry: Option<Retry>, attempts: seq<nat>, now: nat)

  /** An attempt is remembered until the sweep drops the entry. */
  function Observe(trace: Trace, o: Observation): Trace {
    var kept := Swept(trace.entry, o.pane, o.times.sweep);
    var remembered := if kept.Some? then trace.attempts else [];
    var (entry, attempted) := Pass(trace.entry, o.pane, o.policy, o.times);
    Trace(entry, if attempted then remembered + [o.times.stamp] else remembered, o.times.stamp)
  }

  ghost predicate Timely(trace: Trace, observations: seq<Observation>)
    decreases |observations|
  {
    observations == [] ||
    (observations[0].times.Ordered(trace.now) && Timely(Observe(trace, observations[0]), observations[1..]))
  }

  function Watch(trace: Trace, observations: seq<Observation>): Trace
    decreases |observations|
  {
    if observations == [] then trace else Watch(Observe(trace, observations[0]), observations[1..])
  }

  /** The remembered attempts number at most ten, and each came its delay after the one before. */
  ghost predicate WithinBudget(trace: Trace) {
    && |trace.attempts| <= MAX_RESTART_RETRIES
    && (match trace.entry
        case None => trace.attempts == []
        case Some(e) =>
          && trace.attempts != [] && e.count == |trace.attempts|
          && e.last == trace.attempts[|trace.attempts| - 1] && e.last <= trace.now)
    && forall i :: 0 < i < |trace.attempts| ==> trace.attempts[i] >= trace.attempts[i - 1] + Delay(i)
  }

  lemma ObserveWithinBudget(trace: Trace, o: Observation)
    requires WithinBudget(trace) && o.times.Ordered(trace.now)
    ensures WithinBudget(Observe(trace, o))
  {
    var next := Observe(trace, o);
    forall i | 0 < i < |next.attempts| ensures next.attempts[i] >= next.attempts[i - 1] + Delay(i) {
      if i < |trace.attempts| {
        assert next.attempts[i] == trace.attempts[i];
      }
    }
  }

  /**
   * The restart budget, for every sequence of passes and whatever happens to the pane between them: since the entry
   * was last dropped there were at most ten attempts, the (n+1)-th at least 2 * max(1, n - 2) seconds after the n-th.
   */
  lemma {:induction false} RestartBudgetHolds(trace: Trace, observations: seq<Observation>)
    requires WithinBudget(trace) && Timely(trace, observations)
    ensures WithinBudget(Watch(trace, observations))
    decreases |observations|
  {
    if observations != [] {
      ObserveWithinBudget(trace, observations[0]);
      RestartBudgetHolds(Observe(trace, observations[0]), observations[1..]);
    }
  }

  /** Ten attempts take at least a minute. */
  lemma TenthAfterAMinute(trace: Trace)
    requires WithinBudget(trace) && |trace.attempts| == 10
    ensures trace.attempts[9] >= trace.attempts[0] + 60_000
  {
    assert trace.attempts[9] >= trace.attempts[8] + Delay(9) && trace.attempts[8] >= trace.attempts[7] + Delay(8);
    assert trace.attempts[7] >= trace.attempts[6] + Delay(7) && trace.attempts[6] >= trace.attempts[5] + Delay(6);
    assert trace.attempts[5] >= trace.attempts[4] + Delay(5) && trace.attempts[4] >= trace.attempts[3] + Delay(4);
    assert trace.attempts[3] >= trace.attempts[2] + Delay(3) && trace.attempts[2] >= trace.attempts[1] + Delay(2);
    assert trace.attempts[1] >= trace.attempts[0] + Delay(1);
  }

  /**
   * The count starts over exactly for a pane that is gone, or is seen alive at least 30 s after its last attempt; a
   * pane that is down after ten attempts is not tried in that pass.
   */
  lemma ForgottenOnlyWhenHealthy(trace: Trace, o: Observation)
    requires WithinBudget(trace) && o.times.Ordered(trace.now) && trace.attempts != []
    ensures !(trace.attempts <= Observe(trace, o).attempts) <==>
              o.pane == None || (o.pane.value.alive && o.times.sweep >= trace.attempts[|trace.attempts| - 1] + 30_000)
    ensures |trace.attempts| == MAX_RESTART_RETRIES && o.pane.Some? && !o.pane.value.alive ==>
              Observe(trace, o).attempts == trace.attempts && Observe(trace, o).entry == trace.entry
  {
  }

  /** How long a pane has to wait after so many attempts: 2 s after each of the first three, and 2 s more each time after. */
  function Wait(attempts: nat): nat {
    if attempts <= 3 then 2_000 else 2_000 + Wait(attempts - 1)
  }

  lemma {:induction false} WaitIsDelay(count: nat)
    ensures Wait(count) == Delay(count)
  {
    if count > 3 {
      WaitIsDelay(count - 1);
    }
  }

  /**
   * When a pass tries to restart a pane: it is in the table and not running, its policy is to restart it always, or on
   * failure and it did not exit with status 0, it has had fewer than ten attempts, and it has waited long enough.
   */
  lemma TriedExactlyWhenDue(trace: Trace, o: Observation)
    requires WithinBudget(trace) && o.times.Ordered(trace.now)
    ensures Observe(trace, o).attempts == trace.attempts + [o.times.stamp] <==>
              && o.pane.Some? && !o.pane.value.alive
              && (o.policy == Some(Always) || (o.policy == Some(OnFailure) && o.pane.value.exit != Some(0)))
              && |trace.attempts| < 10
              && (trace.attempts != [] ==>
                    o.times.check >= trace.attempts[|trace.attempts| - 1] + Wait(|trace.attempts|))
  {
    WaitIsDelay(|trace.attempts|);
  }

  ghost predicate StaysDown(observations: seq<Observation>) {
    forall i :: 0 <= i < |observations| ==> observations[i].pane.Some? && !observations[i].pane.value.alive
  }

  /** A pane that stays down after ten attempts is given up for good, whatever the clock and its policy say. */
  lemma {:induction false} GivenUpForGood(trace: Trace, observations: seq<Observation>)
    requires WithinBudget(trace) && Timely(trace, observations)
    requires |trace.attempts| == MAX_RESTART_RETRIES && StaysDown(observations)
    ensures Watch(trace, observations).attempts == trace.attempts && Watch(trace, observations).entry == trace.entry
    decreases |observations|
  {
    if observations != [] {
      ObserveWithinBudget(trace, observations[0]);
      ForgottenOnlyWhenHealthy(trace, observations[0]);
      GivenUpForGood(Observe(trace, observations[0]), observations[1..]);
    }
  }

  /** A pane that has not been tried before, or was forgotten, is tried at once. */
  lemma FirstAttemptIsImmediate(trace: Trace, o: Observation)
    requires WithinBudget(trace) && o.times.Ordered(trace.now)
    requires IsCandidate(o.pane, o.policy) && trace.entry == None
    ensures Observe(trace, o).attempts == [o.times.stamp]
  {
  }
}
