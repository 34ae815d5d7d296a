/**
 A scheduler that runs its queued jobs in batches: a timer starts the next batch, a job that fails goes back
 to the queue, and the timer is set again when the last job of the batch is done.
 */
module PromiseScheduler {

  /** A job, by identity. */
  type Job = nat

  /** The scheduler's fields, and beside them every job ever added and every success. */
  datatype State = State(promises: seq<Job>, batch: seq<Job>, unfinished: set<nat>, count: nat, timerArmed: bool,
                         added: multiset<Job>, succeeded: multiset<Job>)

  datatype Event = Add(job: Job) | TimerFires | Finishes(task: nat, success: bool)

  predicate Enabled(s: State, e: Event) {
    match e
    case Add(_) => true
    case TimerFires => s.timerArmed
    case Finishes(task, _) => task in s.unfinished && task < |s.batch|
  }

  function Indices(n: nat): (r: set<nat>)
    ensures |r| == n && forall i: nat :: i in r <==> i < n
  {
    if n == 0 then {} else Indices(n - 1) + {n - 1}
  }

  /** One step; the tasks of a batch may finish in any order and between any other steps. */
  ghost function Step(s: State, e: Event): State
    requires Enabled(s, e)
  {
    match e
    case Add(job) => s.(promises := s.promises + [job], added := s.added + multiset{job})
    case TimerFires =>
      if s.promises == [] then s
      else s.(promises := [], batch := s.promises, unfinished := Indices(|s.promises|), count := 0, timerArmed := false)
    case Finishes(task, success) =>
      s.(promises := if success then s.promises else s.promises + [s.batch[task]],
         unfinished := s.unfinished - {task},
         count := s.count + 1,
         timerArmed := s.timerArmed || s.count + 1 == |s.batch|,
         succeeded := if success then s.succeeded + multiset{s.batch[task]} else s.succeeded)
  }

  const INIT := State([], [], {}, 0, true, multiset{}, multiset{})

  // ---------------------------------------------------------------- the invariant

  /** The jobs of the first n tasks that have not finished. */
  ghost function Running(batch: seq<Job>, unfinished: set<nat>, n: nat): multiset<Job>
    requires n <= |batch|
  {
    if n == 0 then multiset{}
    else if n - 1 in unfinished then Running(batch, unfinished, n - 1) + multiset{batch[n - 1]}
    else Running(batch, unfinished, n - 1)
  }

  /** Each added job is queued, running or done, as often as it was added. */
  ghost predicate Conserved(s: State) {
    s.added == multiset(s.promises) + Running(s.batch, s.unfinished, |s.batch|) + s.succeeded
  }

  /** Between steps either the timer is set or a batch is running, never both and never neither. */
  ghost predicate Exclusive(s: State) {
    && (forall i :: i in s.unfinished ==> i < |s.batch|)
    && s.count + |s.unfinished| == |s.batch|
    && (s.timerArmed <==> s.unfinished == {})
  }

  lemma {:induction false} NoneRunning(batch: seq<Job>, n: nat)
    requires n <= |batch|
    ensures Running(batch, {}, n) == multiset{}
  {
    if n > 0 {
      NoneRunning(batch, n - 1);
    }
  }

  lemma {:induction false} AllRunning(batch: seq<Job>, n: nat)
    requires n <= |batch|
    ensures Running(batch, Indices(|batch|), n) == multiset(batch[..n])
  {
    if n > 0 {
      AllRunning(batch, n - 1);
      assert n - 1 in Indices(|batch|);
      assert batch[..n] == batch[..n - 1] + [batch[n - 1]];
    }
  }

  lemma {:induction false} OneFinishes(batch: seq<Job>, unfinished: set<nat>, task: nat, n: nat)
    requires n <= |batch| && task < |batch| && task in unfinished
    ensures task < n ==> Running(batch, unfinished, n) == Running(batch, unfinished - {task}, n) + multiset{batch[task]}
    ensures task >= n ==> Running(batch, unfinished, n) == Running(batch, unfinished - {task}, n)
  {
    if n > 0 {
      OneFinishes(batch, unfinished, task, n - 1);
      var rest := Running(batch, unfinished - {task}, n - 1);
      if n - 1 > task {
        Exchange(rest, multiset{batch[task]}, multiset{batch[n - 1]});
      }
    }
  }

  lemma Exchange(a: multiset<Job>, b: multiset<Job>, c: multiset<Job>)
    ensures a + b + c == a + c + b
  {
  }

  lemma StepExclusive(s: State, e: Event)
    requires Exclusive(s) && Enabled(s, e)
    ensures Exclusive(Step(s, e))
  {
  }

  lemma StepConserved(s: State, e: Event)
    requires Conserved(s) && Exclusive(s) && Enabled(s, e)
    ensures Conserved(Step(s, e))
  {
    match e
    case Add(job) =>
      QueueOne(s.promises, job);
      Shift(multiset(s.promises), Running(s.batch, s.unfinished, |s.batch|), s.succeeded, multiset{job});
    case TimerFires =>
      NoneRunning(s.batch, |s.batch|);
      AllRunning(s.promises, |s.promises|);
      assert s.promises[..|s.promises|] == s.promises;
    case Finishes(task, success) =>
      OneFinishes(s.batch, s.unfinished, task, |s.batch|);
      QueueOne(s.promises, s.batch[task]);
      Shift(multiset(s.promises), Running(s.batch, s.unfinished - {task}, |s.batch|), s.succeeded, multiset{s.batch[task]});
  }

  lemma QueueOne(queue: seq<Job>, job: Job)
    ensures multiset(queue + [job]) == multiset(queue) + multiset{job}
  {
  }

  /** A job counts the same in the queue, in the batch and among the successes. */
  lemma Shift(queue: multiset<Job>, running: multiset<Job>, done: multiset<Job>, one: multiset<Job>)
    ensures queue + (running + one) + done == queue + one + running + done
         == queue + running + (done + one) == queue + running + done + one
  {
  }

  lemma StepKeeps(s: State, e: Event)
    requires Conserved(s) && Exclusive(s) && Enabled(s, e)
    ensures Conserved(Step(s, e)) && Exclusive(Step(s, e))
  {
    StepExclusive(s, e);
    StepConserved(s, e);
  }

  // ---------------------------------------------------------------- whole runs

  ghost predicate IsRun(s: State, events: seq<Event>)
    decreases |events|
  {
    events == [] || (Enabled(s, events[0]) && IsRun(Step(s, events[0]), events[1..]))
  }

  ghost function Final(s: State, events: seq<Event>): State
    requires IsRun(s, events)
    decreases |events|
  {
    if events == [] then s else Final(Step(s, events[0]), events[1..])
  }

  lemma {:induction false} RunKeeps(s: State, events: seq<Event>)
    requires IsRun(s, events) && Conserved(s) && Exclusive(s)
    ensures Conserved(Final(s, events)) && Exclusive(Final(s, events))
    decreases |events|
  {
    if events != [] {
      StepKeeps(s, events[0]);
      RunKeeps(Step(s, events[0]), events[1..]);
    }
  }

  /** In every interleaving no job is lost or duplicated, and exactly one of timer and batch is active. */
  lemma RunTheorem(events: seq<Event>)
    requires IsRun(INIT, events)
    ensures Conserved(Final(INIT, events)) && Exclusive(Final(INIT, events))
  {
    assert Conserved(INIT);
    RunKeeps(INIT, events);
  }

  /** A state with nothing queued and no batch running has finished everything that was ever added. */
  lemma QuietMeansDone(events: seq<Event>)
    requires IsRun(INIT, events)
    requires var s := Final(INIT, events); s.timerArmed && s.promises == []
    ensures Final(INIT, events).succeeded == Final(INIT, events).added
  {
    RunTheorem(events);
    NoneRunning(Final(INIT, events).batch, |Final(INIT, events).batch|);
  }

  lemma {:induction false} OneMoreEvent(s: State, events: seq<Event>, e: Event)
    requires IsRun(s, events) && Enabled(Final(s, events), e)
    ensures IsRun(s, events + [e]) && Final(s, events + [e]) == Step(Final(s, events), e)
    decreases |events|
  {
    if events == [] {
      assert [] + [e] == [e];
    } else {
      OneMoreEvent(Step(s, events[0]), events[1..], e);
      assert (events + [e])[1..] == events[1..] + [e];
    }
  }

  // ---------------------------------------------------------------- the scheduler itself

  /** The scheduler, with the events it has been through; its fields are where those events lead. */
  class Scheduler {
    var promises: seq<Job>
    var batch: seq<Job>
    var unfinished: set<nat>
    var count: nat
    var timerArmed: bool
    ghost var events: seq<Event>

    ghost predicate Is(s: State)
      reads this
    {
      promises == s.promises && batch == s.batch && unfinished == s.unfinished && count == s.count
      && timerArmed == s.timerArmed
    }

    ghost predicate Valid()
      reads this
    {
      IsRun(INIT, events) && Is(Final(INIT, events))
    }

    /** Starts by running with nothing queued, which only sets the timer. */
    constructor ()
      ensures Valid() && events == []
    {
      promises, batch, unfinished, count, timerArmed := [], [], {}, 0, true;
      events := [];
    }

    method AddPromise(job: Job)
      requires Valid()
      modifies this
      ensures Valid() && events == old(events) + [Add(job)]
    {
      OneMoreEvent(INIT, events, Add(job));
      promises := promises + [job];
      events := events + [Add(job)];
    }

    /** What the timer calls. */
    method Run()
      requires Valid() && timerArmed
      modifies this
      ensures Valid() && events == old(events) + [TimerFires]
    {
      OneMoreEvent(INIT, events, TimerFires);
      timerArmed := false;
      if promises == [] {
        timerArmed := true;
      } else {
        var promisesToExecute := promises;
        promises := [];
        batch := promisesToExecute;
        count := 0;
        unfinished := Indices(|promisesToExecute|);
      }
      events := events + [TimerFires];
    }

    lemma TaskInBatch(task: nat)
      requires Valid() && task in unfinished
      ensures task < |batch|
    {
      RunTheorem(events);
    }

    /** The end of one task: a failed job is queued again, and the last task sets the timer. */
    method Finish(task: nat, success: bool)
      requires Valid() && task in unfinished
      modifies this
      ensures Valid() && events == old(events) + [Finishes(task, success)]
    {
      TaskInBatch(task);
      OneMoreEvent(INIT, events, Finishes(task, success));
      if !success {
        promises := promises + [batch[task]];
      }
      count := count + 1;
      unfinished := unfinished - {task};
      if count == |batch| {
        timerArmed := true;
      }
      events := events + [Finishes(task, success)];
    }
  }
}
