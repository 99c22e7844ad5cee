/** The worker pool that runs hooks: a bounded queue, a condition variable, and a draining shutdown. */
module HookPool {
  import opened Prelude

  const HOOK_QUEUE_DEPTH := 64

  type Job = string

  /** Where a worker thread is: about to look at the queue, asleep on the condition variable, running, or done. */
  datatype Worker = Checking | Waiting | Running(job: Job) | Exited

  datatype Pool = Pool(
    jobs: seq<Job>,
    active: nat,
    accepting: bool,
    cancel: bool,
    workers: seq<Worker>)

  /** Everything that happens under the lock, one critical section at a time. */
  datatype Event =
    | Submit(job: Job, woken: nat)      // notify_one picks a sleeper, if there is any
    | Look(worker: nat)                 // a worker holding the lock inspects the queue
    | Finish(worker: nat)               // a worker reports its job done
    | SpuriousWake(worker: nat)
    | BeginShutdown
    | PollShutdown(timedOut: bool)      // the shutting-down thread re-checks after waking
    | Abandon                           // the pool is dropped

  /** What the run so far amounted to. */
  datatype History = History(accepted: seq<Job>, started: seq<Job>, finished: nat, discarded: seq<Job>, drained: Option<bool>)

  datatype System = System(pool: Pool, past: History)

  function WakeAll(workers: seq<Worker>): (w: seq<Worker>)
    ensures |w| == |workers|
  {
    seq(|workers|, i requires 0 <= i < |workers| => if workers[i] == Waiting then Checking else workers[i])
  }

  /** Wakes the chosen worker if it sleeps. */
  function WakeOne(workers: seq<Worker>, i: nat): seq<Worker> {
    if i < |workers| && workers[i] == Waiting then workers[i := Checking] else workers
  }

  predicate SomeoneWaits(workers: seq<Worker>) {
    exists i :: 0 <= i < |workers| && workers[i] == Waiting
  }

  predicate Enabled(p: Pool, e: Event) {
    match e
    case Submit(_, woken) => SomeoneWaits(p.workers) ==> woken < |p.workers| && p.workers[woken] == Waiting
    case Look(w) => w < |p.workers| && p.workers[w] == Checking
    case Finish(w) => w < |p.workers| && p.workers[w].Running?
    case SpuriousWake(w) => w < |p.workers| && p.workers[w] == Waiting
    case BeginShutdown => true
    case PollShutdown(_) => !p.accepting
    case Abandon => true
  }

  predicate Admits(p: Pool) {
    p.workers != [] && p.accepting && |p.jobs| < HOOK_QUEUE_DEPTH
  }

  /** What a worker does with the queue in front of it. */
  function AfterLook(p: Pool, w: nat): Pool
    requires w < |p.workers|
  {
    if p.jobs != [] then
      p.(jobs := p.jobs[1..], active := p.active + 1, workers := p.workers[w := Running(p.jobs[0])])
    else p.(workers := p.workers[w := if p.accepting then Waiting else Exited])
  }

  function StepPool(p: Pool, e: Event): Pool
    requires Enabled(p, e)
  {
    match e
    case Submit(job, woken) =>
      if Admits(p) then p.(jobs := p.jobs + [job], workers := WakeOne(p.workers, woken)) else p
    case Look(w) => AfterLook(p, w)
    case Finish(w) => p.(active := SatSub(p.active, 1), workers := WakeAll(p.workers[w := Checking]))
    case SpuriousWake(w) => p.(workers := p.workers[w := Checking])
    case BeginShutdown => p.(accepting := false, workers := WakeAll(p.workers))
    case PollShutdown(timedOut) =>
      if (p.active > 0 || p.jobs != []) && timedOut then p.(cancel := true, jobs := [], workers := WakeAll(p.workers))
      else p
    case Abandon => p.(cancel := true, accepting := false, jobs := [], workers := WakeAll(p.workers))
  }

  function StepPast(s: System, e: Event): History
    requires Enabled(s.pool, e)
  {
    var (p, h) := (s.pool, s.past);
    match e
    case Submit(job, _) => if Admits(p) then h.(accepted := h.accepted + [job]) else h
    case Look(_) => if p.jobs != [] then h.(started := h.started + [p.jobs[0]]) else h
    case Finish(_) => h.(finished := h.finished + 1)
    case PollShutdown(timedOut) =>
      if p.active == 0 && p.jobs == [] then h.(drained := Some(true))
      else if timedOut then h.(discarded := h.discarded + p.jobs, drained := Some(false))
      else h
    case Abandon => h.(discarded := h.discarded + p.jobs)
    case _ => h
  }

  function Step(s: System, e: Event): System
    requires Enabled(s.pool, e)
  {
    System(StepPool(s.pool, e), StepPast(s, e))
  }

  // ----- the pool as it is updated in place -----

  class HookPool {
    var jobs: seq<Job>
    var active: nat
    var accepting: bool
    var cancel: bool
    var workers: seq<Worker>

    /** Some of the worker threads may fail to start. */
    constructor (spawned: nat)
      ensures jobs == [] && active == 0 && accepting && !cancel
      ensures |workers| == spawned && forall i :: 0 <= i < spawned ==> workers[i] == Checking
    {
      jobs, active, accepting, cancel := [], 0, true, false;
      workers := seq(spawned, _ => Checking);
    }

    function View(): Pool
      reads this
    {
      Pool(jobs, active, accepting, cancel, workers)
    }

    method NotifyAll()
      modifies this`workers
      ensures workers == WakeAll(old(workers))
    {
      for i := 0 to |workers|
        invariant |workers| == |old(workers)|
        invariant forall j :: 0 <= j < |workers| ==>
                    workers[j] == if j < i && old(workers)[j] == Waiting then Checking else old(workers)[j]
      {
        if workers[i] == Waiting {
          workers := workers[i := Checking];
        }
      }
    }

    method Submit(job: Job, woken: nat) returns (ok: bool)
      requires Enabled(View(), Event.Submit(job, woken))
      modifies this
      ensures View() == StepPool(old(View()), Event.Submit(job, woken))
      ensures ok == Admits(old(View()))
    {
      if workers == [] || !accepting || |jobs| >= HOOK_QUEUE_DEPTH {
        return false;
      }
      jobs := jobs + [job];
      if woken < |workers| && workers[woken] == Waiting {
        workers := workers[woken := Checking];
      }
      return true;
    }

    /** One pass of a worker through its wait loop. */
    method WorkerLook(w: nat) returns (job: Option<Job>)
      requires Enabled(View(), Look(w))
      modifies this
      ensures View() == StepPool(old(View()), Look(w))
      ensures job == if old(jobs) == [] then None else Some(old(jobs)[0])
    {
      if jobs == [] && accepting {
        workers := workers[w := Waiting];
        return None;
      }
      if jobs == [] {
        workers := workers[w := Exited];
        return None;
      }
      var front := jobs[0];
      jobs := jobs[1..];
      active := active + 1;
      workers := workers[w := Running(front)];
      return Some(front);
    }

    method WorkerFinish(w: nat)
      requires Enabled(View(), Finish(w)) && active > 0
      modifies this
      ensures View() == StepPool(old(View()), Finish(w))
    {
      active := active - 1;
      workers := workers[w := Checking];
      NotifyAll();
    }

    method BeginShutdown()
      modifies this
      ensures View() == StepPool(old(View()), Event.BeginShutdown)
    {
      accepting := false;
      NotifyAll();
    }

    /** One pass of the shutdown loop; an answer ends it. */
    method PollShutdown(timedOut: bool) returns (drained: Option<bool>)
      requires !accepting
      modifies this
      ensures View() == StepPool(old(View()), Event.PollShutdown(timedOut))
      ensures drained == if old(active) == 0 && old(jobs) == [] then Some(true) else if timedOut then Some(false) else None
    {
      if active > 0 || jobs != [] {
        if timedOut {
          cancel := true;
          jobs := [];
          NotifyAll();
          return Some(false);
        }
        return None;
      }
      return Some(true);
    }

    method Abandon()
      modifies this
      ensures View() == StepPool(old(View()), Event.Abandon)
    {
      cancel := true;
      accepting := false;
      jobs := [];
      NotifyAll();
    }
  }

  // ----- counting workers -----

  datatype Kind = KChecking | KWaiting | KRunning | KExited

  function KindOf(w: Worker): Kind {
    match w
    case Checking => KChecking
    case Waiting => KWaiting
    case Running(_) => KRunning
    case Exited => KExited
  }

  function Count(workers: seq<Worker>, k: Kind): (n: nat)
    ensures n <= |workers|
  {
    if workers == [] then 0
    else Count(workers[..|workers| - 1], k) + (if KindOf(workers[|workers| - 1]) == k then 1 else 0)
  }

  lemma {:induction false} CountSet(workers: seq<Worker>, i: nat, w: Worker, k: Kind)
    requires i < |workers|
    ensures Count(workers[i := w], k) + (if KindOf(workers[i]) == k then 1 else 0)
         == Count(workers, k) + (if KindOf(w) == k then 1 else 0)
  {
    var n := |workers| - 1;
    if i < n {
      assert workers[i := w][..n] == workers[..n][i := w];
      CountSet(workers[..n], i, w, k);
    } else {
      assert workers[i := w][..n] == workers[..n];
    }
  }

  lemma {:induction false} CountWakeAll(workers: seq<Worker>)
    ensures Count(WakeAll(workers), KWaiting) == 0
    ensures Count(WakeAll(workers), KRunning) == Count(workers, KRunning)
    ensures Count(WakeAll(workers), KExited) == Count(workers, KExited)
  {
    if workers != [] {
      var n := |workers| - 1;
      assert WakeAll(workers)[..n] == WakeAll(workers[..n]);
      CountWakeAll(workers[..n]);
    }
  }

  lemma {:induction false} CountPositive(workers: seq<Worker>, i: nat)
    requires i < |workers|
    ensures Count(workers, KindOf(workers[i])) > 0
  {
    var n := |workers| - 1;
    if i < n {
      CountPositive(workers[..n], i);
    }
  }

  /** Some worker of a kind that occurs. */
  ghost function SomeOfKind(workers: seq<Worker>, k: Kind): (i: nat)
    requires Count(workers, k) > 0
    ensures i < |workers| && KindOf(workers[i]) == k
  {
    var n := |workers| - 1;
    if KindOf(workers[n]) == k then n else SomeOfKind(workers[..n], k)
  }

  // ----- the invariant -----

  /** Nothing is lost: accepted jobs are started, queued or discarded, in order; started ones are finished or running. */
  ghost predicate Accounted(s: System) {
    && s.past.accepted == s.past.started + (s.pool.jobs + s.past.discarded)
    && |s.past.started| == s.past.finished + s.pool.active
    && (s.past.discarded != [] ==> !s.pool.accepting && s.pool.jobs == [])
  }

  /** No wake-up is lost: while someone sleeps, at least as many workers are on their way as there are jobs. */
  ghost predicate NobodyOversleeps(p: Pool) {
    && (Count(p.workers, KWaiting) > 0 ==> p.accepting && |p.jobs| <= Count(p.workers, KChecking))
    && (Count(p.workers, KExited) > 0 ==> !p.accepting && p.jobs == [])
    && (p.workers == [] ==> p.jobs == [])
  }

  ghost predicate Sound(s: System) {
    && |s.pool.jobs| <= HOOK_QUEUE_DEPTH
    && s.pool.active == Count(s.pool.workers, KRunning)
    && Accounted(s)
    && NobodyOversleeps(s.pool)
    && (s.past.drained.Some? ==> !s.pool.accepting && s.pool.jobs == [])
    && (s.past.drained == Some(true) ==> s.pool.active == 0)
  }

  lemma LookIsSound(s: System, w: nat)
    requires Sound(s) && Enabled(s.pool, Look(w))
    ensures Sound(Step(s, Look(w)))
  {
    var p := s.pool;
    var worker := StepPool(p, Look(w)).workers[w];
    CountSet(p.workers, w, worker, KRunning);
    CountSet(p.workers, w, worker, KWaiting);
    CountSet(p.workers, w, worker, KChecking);
    CountSet(p.workers, w, worker, KExited);
    CountPositive(p.workers, w);
    if p.jobs != [] {
      assert p.jobs == [p.jobs[0]] + p.jobs[1..];
      assert s.past.started + (p.jobs + s.past.discarded)
          == (s.past.started + [p.jobs[0]]) + (p.jobs[1..] + s.past.discarded);
    }
  }

  lemma FinishIsSound(s: System, w: nat)
    requires Sound(s) && Enabled(s.pool, Finish(w))
    ensures Sound(Step(s, Finish(w)))
  {
    var p := s.pool;
    CountPositive(p.workers, w);
    CountSet(p.workers, w, Checking, KRunning);
    CountSet(p.workers, w, Checking, KExited);
    CountWakeAll(p.workers[w := Checking]);
  }

  lemma SubmitIsSound(s: System, job: Job, woken: nat)
    requires Sound(s) && Enabled(s.pool, Submit(job, woken))
    ensures Sound(Step(s, Submit(job, woken)))
  {
    var (p, h) := (s.pool, s.past);
    if Admits(p) {
      assert h.discarded == [];
      assert (h.started + (p.jobs + h.discarded)) + [job] == h.started + ((p.jobs + [job]) + h.discarded);
      if Count(p.workers, KWaiting) > 0 {
        var i := SomeOfKind(p.workers, KWaiting);
        assert SomeoneWaits(p.workers);
        CountSet(p.workers, woken, Checking, KRunning);
        CountSet(p.workers, woken, Checking, KWaiting);
        CountSet(p.workers, woken, Checking, KChecking);
        CountSet(p.workers, woken, Checking, KExited);
      } else if woken < |p.workers| {
        CountPositive(p.workers, woken);
      }
    }
  }

  /** Every critical section keeps the pool sound, whichever thread runs it. */
  lemma StepIsSound(s: System, e: Event)
    requires Sound(s) && Enabled(s.pool, e)
    ensures Sound(Step(s, e))
  {
    var (p, h) := (s.pool, s.past);
    CountWakeAll(p.workers);
    match e
    case Submit(job, woken) => SubmitIsSound(s, job, woken);
    case Look(w) => LookIsSound(s, w);
    case Finish(w) => FinishIsSound(s, w);
    case SpuriousWake(w) =>
      CountPositive(p.workers, w);
      CountSet(p.workers, w, Checking, KRunning);
      CountSet(p.workers, w, Checking, KWaiting);
      CountSet(p.workers, w, Checking, KChecking);
      CountSet(p.workers, w, Checking, KExited);
    case BeginShutdown =>
    case PollShutdown(_) => Discarding(s);
    case Abandon => Discarding(s);
  }

  /** Queued jobs that are thrown away go to the end of what was thrown away before. */
  lemma Discarding(s: System)
    requires Sound(s)
    ensures s.past.accepted == s.past.started + ([] + (s.past.discarded + s.pool.jobs))
  {
    var (p, h) := (s.pool, s.past);
    assert p.jobs == [] || h.discarded == [];
    assert p.jobs + h.discarded == [] + (h.discarded + p.jobs);
  }

  ghost predicate Feasible(s: System, events: seq<Event>)
    decreases |events|
  {
    events == [] || (Enabled(s.pool, events[0]) && Feasible(Step(s, events[0]), events[1..]))
  }

  ghost function Run(s: System, events: seq<Event>): System
    requires Feasible(s, events)
    decreases |events|
  {
    if events == [] then s else Run(Step(s, events[0]), events[1..])
  }

  ghost predicate Initial(s: System) {
    && s.pool.jobs == [] && s.pool.active == 0 && s.pool.accepting
    && (forall i :: 0 <= i < |s.pool.workers| ==> s.pool.workers[i] == Checking)
    && s.past == History([], [], 0, [], None)
  }

  lemma {:induction false} AllChecking(workers: seq<Worker>)
    requires forall i :: 0 <= i < |workers| ==> workers[i] == Checking
    ensures Count(workers, KRunning) == 0 && Count(workers, KWaiting) == 0 && Count(workers, KExited) == 0
  {
    if workers != [] {
      AllChecking(workers[..|workers| - 1]);
    }
  }

  lemma {:induction false} RunIsSound(s: System, events: seq<Event>)
    requires Sound(s) && Feasible(s, events)
    ensures Sound(Run(s, events))
    decreases |events|
  {
    if events != [] {
      StepIsSound(s, events[0]);
      RunIsSound(Step(s, events[0]), events[1..]);
    }
  }

  /**
   * The pool protocol, for every interleaving from the start: at most 64 jobs queue and no more run than there are
   * workers; accepted jobs are started in the order of acceptance; and none is lost or counted twice.
   */
  lemma PoolProtocol(s: System, events: seq<Event>)
    requires Initial(s) && Feasible(s, events)
    ensures var t := Run(s, events);
            && |t.pool.jobs| <= HOOK_QUEUE_DEPTH && t.pool.active <= |t.pool.workers|
            && t.past.started <= t.past.accepted
            && |t.past.accepted| == t.past.finished + t.pool.active + |t.pool.jobs| + |t.past.discarded|
            && Sound(t)
  {
    AllChecking(s.pool.workers);
    RunIsSound(s, events);
  }

  // ----- progress -----

  /** What is still to do before every worker has left. */
  function Remaining(p: Pool): nat {
    2 * |p.jobs| + p.active + (|p.workers| - Count(p.workers, KExited))
  }

  /** While jobs are queued or running, some worker can act: no wake-up gets lost. */
  lemma NeverStuck(s: System) returns (e: Event)
    requires Sound(s) && (s.pool.jobs != [] || s.pool.active > 0)
    ensures (e.Look? || e.Finish?) && Enabled(s.pool, e)
  {
    var p := s.pool;
    if p.active > 0 {
      var w := SomeOfKind(p.workers, KRunning);
      e := Finish(w);
    } else {
      var last := |p.workers| - 1;
      CountPositive(p.workers, last);
      var w := if Count(p.workers, KChecking) > 0 then SomeOfKind(p.workers, KChecking) else last;
      e := Look(w);
    }
  }

  /** Once the pool stops accepting, every worker step brings the end closer, and no other step puts it off. */
  lemma DrainProgress(s: System, e: Event)
    requires Sound(s) && !s.pool.accepting && Enabled(s.pool, e)
    ensures !Step(s, e).pool.accepting
    ensures Remaining(Step(s, e).pool) <= Remaining(s.pool)
    ensures e.Look? || e.Finish? ==> Remaining(Step(s, e).pool) < Remaining(s.pool)
    ensures (e.Look? && s.pool.jobs != []) || e.Finish? ==>
              2 * |Step(s, e).pool.jobs| + Step(s, e).pool.active < 2 * |s.pool.jobs| + s.pool.active
  {
    var p := s.pool;
    CountWakeAll(p.workers);
    match e
    case Look(w) =>
      var worker := StepPool(p, e).workers[w];
      CountSet(p.workers, w, worker, KExited);
    case Finish(w) =>
      CountPositive(p.workers, w);
      CountSet(p.workers, w, Checking, KExited);
      CountWakeAll(p.workers[w := Checking]);
    case SpuriousWake(w) => CountSet(p.workers, w, Checking, KExited);
    case _ =>
  }

  /** How many of the events are steps of a worker that looks at the queue or ends a job. */
  function WorkerSteps(events: seq<Event>): nat {
    if events == [] then 0 else (if events[0].Look? || events[0].Finish? then 1 else 0) + WorkerSteps(events[1..])
  }

  /** The drain is bounded over every run: from a closed pool the workers take no more steps than there was work. */
  lemma {:induction false} DrainIsBounded(s: System, events: seq<Event>)
    requires Sound(s) && !s.pool.accepting && Feasible(s, events)
    ensures WorkerSteps(events) + Remaining(Run(s, events).pool) <= Remaining(s.pool)
    decreases |events|
  {
    if events != [] {
      StepIsSound(s, events[0]);
      DrainProgress(s, events[0]);
      DrainIsBounded(Step(s, events[0]), events[1..]);
    }
  }

  /** After a shutdown has answered, either way, no job ever starts again; after it answered true, none is running. */
  lemma {:induction false} NothingStartsAfterShutdown(s: System, events: seq<Event>)
    requires Sound(s) && s.past.drained.Some? && Feasible(s, events)
    ensures Run(s, events).past.started == s.past.started
    ensures s.past.drained == Some(true) ==> Run(s, events).pool.active == 0 && Run(s, events).past.finished == |s.past.started|
    decreases |events|
  {
    if events != [] {
      var next := Step(s, events[0]);
      StepIsSound(s, events[0]);
      if events[0].Finish? {
        CountPositive(s.pool.workers, events[0].worker);
      }
      assert s.past.drained == Some(true) ==> next.past.drained == Some(true);
      NothingStartsAfterShutdown(next, events[1..]);
    }
  }

  // ----- what a submission comes to -----

  /**
   * A job is accepted exactly when a worker thread could be started, the pool is still open and fewer than 64 jobs wait;
   * it then waits behind the others, and a sleeping worker is woken if there is any. Otherwise nothing changes.
   */
  lemma AcceptedExactlyWhenOpen(s: System, job: Job, woken: nat)
    requires Enabled(s.pool, Submit(job, woken))
    ensures var (t, p) := (Step(s, Submit(job, woken)), s.pool);
            if |p.workers| > 0 && p.accepting && |p.jobs| <= 63
            then && t.past == s.past.(accepted := s.past.accepted + [job])
                 && t.pool.jobs == p.jobs + [job] && t.pool.active == p.active && t.pool.accepting == p.accepting
                 && |t.pool.workers| == |p.workers|
                 && forall i :: 0 <= i < |p.workers| ==>
                      t.pool.workers[i] == if i == woken && p.workers[i] == Waiting then Checking else p.workers[i]
            else t == s
  {
  }
}
