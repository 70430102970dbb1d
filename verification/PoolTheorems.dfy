/** What every run of the thread pool keeps, and how it ends. */
module PoolTheorems {
  import opened Strings
  import opened PoolModel

  /** Tasks leave the queue in the order in which they entered it, and none is lost or duplicated. */
  predicate FirstInFirstOut(s: State) {
    s.taken + s.tasks == s.enqueued
  }

  /** Every task taken is running on exactly one worker or has finished, once. */
  predicate ExactlyOnce(s: State) {
    multiset(s.taken) == s.finished + RunningTasks(s.workers)
  }

  /** No wakeup is lost: as long as some worker sleeps, each queued task has a ready worker. */
  predicate WorkConserved(s: State) {
    NoneAsleep(s) || |s.tasks| <= ReadyCount(s)
  }

  predicate StopIsFinal(s: State) {
    && (s.stop || forall w | 0 <= w < |s.workers| :: s.workers[w] != Exited)
    && (s.notified ==> s.stop && NoneAsleep(s))
  }

  predicate Inv(s: State) {
    FirstInFirstOut(s) && ExactlyOnce(s) && WorkConserved(s) && StopIsFinal(s)
  }

  lemma StepOrder(s: State, e: Event)
    requires FirstInFirstOut(s) && Enabled(s, e)
    ensures FirstInFirstOut(Apply(s, e))
  {
    if e.Take? {
      assert s.tasks == [s.tasks[0]] + s.tasks[1..];
    }
  }

  lemma StepOnce(s: State, e: Event)
    requires ExactlyOnce(s) && Enabled(s, e)
    ensures ExactlyOnce(Apply(s, e))
  {
    match e
    case Enqueue(_, _, wakes) =>
      if wakes.Some? {
        MoveWorker(s.workers, wakes.value, Ready);
      }
    case Take(w) => StepTake(s, w);
    case Sleep(w) => MoveWorker(s.workers, w, Asleep);
    case Exit(w) => MoveWorker(s.workers, w, Exited);
    case Wake(w) => MoveWorker(s.workers, w, Ready);
    case Finish(w) => StepFinish(s, w);
    case Stop =>
    case NotifyAll => WakeAllRunning(s.workers);
  }

  lemma StepTake(s: State, w: nat)
    requires ExactlyOnce(s) && Enabled(s, Take(w))
    ensures ExactlyOnce(Apply(s, Take(w)))
  {
    var next, task := Apply(s, Take(w)), s.tasks[0];
    RunningUpdate(s.workers, w, Running(task));
    assert RunningTasks(next.workers) + multiset{} == RunningTasks(next.workers);
    assert multiset(next.taken) == multiset(s.taken) + multiset{task};
  }

  lemma StepFinish(s: State, w: nat)
    requires ExactlyOnce(s) && Enabled(s, Finish(w))
    ensures ExactlyOnce(Apply(s, Finish(w)))
  {
    var next, task := Apply(s, Finish(w)), s.workers[w].task;
    RunningUpdate(s.workers, w, Ready);
    assert RunningTasks(s.workers) + multiset{} == RunningTasks(s.workers);
    assert s.finished + (RunningTasks(next.workers) + multiset{task})
        == (s.finished + multiset{task}) + RunningTasks(next.workers);
  }

  lemma MoveWorker(workers: seq<Worker>, w: nat, worker: Worker)
    requires w < |workers| && !workers[w].Running? && !worker.Running?
    ensures RunningTasks(workers[w := worker]) == RunningTasks(workers)
  {
    RunningUpdate(workers, w, worker);
    assert RunningTasks(workers[w := worker]) + multiset{} == RunningTasks(workers[w := worker]);
    assert RunningTasks(workers) + multiset{} == RunningTasks(workers);
  }

  lemma StepConserved(s: State, e: Event)
    requires WorkConserved(s) && Enabled(s, e)
    ensures WorkConserved(Apply(s, e))
  {
    match e
    case Enqueue(_, _, wakes) =>
      if wakes.Some? {
        WeighUpdate(s.workers, wakes.value, Ready, 1, 0);
      }
    case Take(w) =>
      WeighUpdate(s.workers, w, Running(s.tasks[0]), 1, 0);
      KeepsNoneAsleep(s, w, Running(s.tasks[0]));
    case Sleep(w) =>
    case Exit(w) => KeepsNoneAsleep(s, w, Exited);
    case Wake(w) => WeighUpdate(s.workers, w, Ready, 1, 0);
    case Finish(w) =>
      WeighUpdate(s.workers, w, Ready, 1, 0);
      KeepsNoneAsleep(s, w, Ready);
    case Stop =>
    case NotifyAll =>
  }

  lemma KeepsNoneAsleep(s: State, w: nat, worker: Worker)
    requires w < |s.workers| && worker != Asleep
    ensures NoneAsleep(s) ==> NoneAsleep(SetWorker(s, w, worker))
  {
  }

  lemma StepStop(s: State, e: Event)
    requires StopIsFinal(s) && Enabled(s, e)
    ensures StopIsFinal(Apply(s, e))
  {
  }

  /** Every step keeps the invariant, whoever takes it. */
  lemma StepInv(s: State, e: Event)
    requires Inv(s) && Enabled(s, e)
    ensures Inv(Apply(s, e))
  {
    StepOrder(s, e);
    StepOnce(s, e);
    StepConserved(s, e);
    StepStop(s, e);
  }

  lemma InitInv(n: nat)
    ensures Inv(Init(n))
  {
    NoneRunning(Init(n).workers);
  }

  lemma {:induction false} RunInv(s: State, events: seq<Event>)
    requires Inv(s) && ValidRun(s, events)
    ensures Inv(Execute(s, events)) && |Execute(s, events).workers| == |s.workers|
    decreases |events|
  {
    if events != [] {
      StepInv(s, events[0]);
      RunInv(Apply(s, events[0]), events[1..]);
    }
  }

  /** The tasks that are submitted by a list of events, in order. */
  function Submitted(events: seq<Event>): seq<Task> {
    if events == [] then []
    else (if events[0].Enqueue? then [events[0].task] else []) + Submitted(events[1..])
  }

  function TakeCount(events: seq<Event>): nat {
    if events == [] then 0 else (if events[0].Take? then 1 else 0) + TakeCount(events[1..])
  }

  function FinishCount(events: seq<Event>): nat {
    if events == [] then 0 else (if events[0].Finish? then 1 else 0) + FinishCount(events[1..])
  }

  lemma StepHistory(s: State, e: Event)
    requires Enabled(s, e)
    ensures var next := Apply(s, e);
            && next.enqueued == s.enqueued + (if e.Enqueue? then [e.task] else [])
            && |next.taken| == |s.taken| + (if e.Take? then 1 else 0)
            && |next.finished| == |s.finished| + (if e.Finish? then 1 else 0)
  {
  }

  /** The recorded history is that of the events: what was submitted, and how many tasks were taken and
      finished. */
  lemma {:induction false} RunHistory(s: State, events: seq<Event>)
    requires ValidRun(s, events)
    ensures var end := Execute(s, events);
            && end.enqueued == s.enqueued + Submitted(events)
            && |end.taken| == |s.taken| + TakeCount(events)
            && |end.finished| == |s.finished| + FinishCount(events)
    decreases |events|
  {
    if events == [] {
      assert s.enqueued + [] == s.enqueued;
    } else {
      hide Apply, Enabled;
      var next := Apply(s, events[0]);
      StepHistory(s, events[0]);
      RunHistory(next, events[1..]);
      var first := if events[0].Enqueue? then [events[0].task] else [];
      assert s.enqueued + (first + Submitted(events[1..])) == (s.enqueued + first) + Submitted(events[1..]);
    }
  }

  /** Safety over every interleaving, with spurious wakes, of a pool of any size: the tasks taken,
      followed by the queue, are the submitted ones in order, and each submitted task is queued, running
      or finished, once. */
  lemma ReachableInv(n: nat, events: seq<Event>)
    requires ValidRun(Init(n), events)
    ensures var s := Execute(Init(n), events);
            && Inv(s)
            && |s.workers| == n
            && s.enqueued == Submitted(events) == s.taken + s.tasks
            && multiset(Submitted(events)) == multiset(s.tasks) + RunningTasks(s.workers) + s.finished
            && |s.taken| == TakeCount(events) && |s.finished| == FinishCount(events)
  {
    InitInv(n);
    RunInv(Init(n), events);
    RunHistory(Init(n), events);
    var s := Execute(Init(n), events);
    assert [] + Submitted(events) == Submitted(events);
    assert multiset(s.enqueued) == multiset(s.taken) + multiset(s.tasks);
  }

  /** A queued task never waits while every worker sleeps: unless all workers have exited, one of
      them is ready to take it or busy with another. */
  lemma NeverStuck(n: nat, events: seq<Event>)
    requires ValidRun(Init(n), events)
    ensures var s := Execute(Init(n), events);
            s.tasks != [] && !AllExited(s) ==>
              exists w: nat :: w < |s.workers| && (s.workers[w] == Ready || s.workers[w].Running?)
  {
    ReachableInv(n, events);
    var s := Execute(Init(n), events);
    if s.tasks != [] && forall w: nat | w < |s.workers| :: s.workers[w] != Ready && !s.workers[w].Running? {
      WeighZero(s.workers, 1, 0);
      assert NoneAsleep(s);
    }
  }

  /** The tasks that were enqueued when every worker had already exited. */
  function Orphans(s: State, events: seq<Event>): seq<Task>
    requires ValidRun(s, events)
    decreases |events|
  {
    if events == [] then []
    else
      (if events[0].Enqueue? && AllExited(s) then [events[0].task] else [])
      + Orphans(Apply(s, events[0]), events[1..])
  }

  /** Only orphans are left behind. */
  predicate LeftBehind(s: State, orphans: seq<Task>) {
    if AllExited(s) then s.tasks == orphans else orphans == []
  }

  lemma StepLeftBehind(s: State, e: Event, orphans: seq<Task>)
    requires LeftBehind(s, orphans) && Enabled(s, e)
    ensures LeftBehind(Apply(s, e), orphans + if e.Enqueue? && AllExited(s) then [e.task] else [])
  {
    var next := Apply(s, e);
    if AllExited(s) {
      assert e.Enqueue? || e.Stop? || e.NotifyAll?;
      assert next.workers == s.workers;
    } else if AllExited(next) {
      var w: nat :| w < |s.workers| && s.workers[w] != Exited;
      assert next.workers[w] == Exited;
    }
  }

  lemma {:induction false} RunLeftBehind(s: State, events: seq<Event>, orphans: seq<Task>)
    requires LeftBehind(s, orphans) && ValidRun(s, events)
    ensures LeftBehind(Execute(s, events), orphans + Orphans(s, events))
    decreases |events|
  {
    if events == [] {
      assert orphans + [] == orphans;
    } else {
      var e := events[0];
      var more := if e.Enqueue? && AllExited(s) then [e.task] else [];
      StepLeftBehind(s, e, orphans);
      RunLeftBehind(Apply(s, e), events[1..], orphans + more);
      assert orphans + Orphans(s, events) == (orphans + more) + Orphans(Apply(s, e), events[1..]);
    }
  }

  /** When all workers have exited, the queue holds exactly the tasks that came after the last exit,
      and every other task has run exactly once. */
  lemma FinalQueue(n: nat, events: seq<Event>)
    requires ValidRun(Init(n), events) && AllExited(Execute(Init(n), events))
    ensures var s := Execute(Init(n), events);
            && s.tasks == Orphans(Init(n), events)
            && s.taken + s.tasks == Submitted(events)
            && s.finished == multiset(s.taken)
            && FinishCount(events) == TakeCount(events) == |s.taken|
  {
    var s := Execute(Init(n), events);
    ReachableInv(n, events);
    NoneRunning(s.workers);
    RunLeftBehind(Init(n), events, []);
    assert [] + Orphans(Init(n), events) == Orphans(Init(n), events);
  }

  /** After `stop`, enqueues come only from tasks running on the pool's own workers. */
  predicate Disciplined(s: State, events: seq<Event>)
    requires ValidRun(s, events)
    decreases |events|
  {
    events == [] ||
    (&& (events[0].Enqueue? && s.stop ==> events[0].source.Some?)
     && Disciplined(Apply(s, events[0]), events[1..]))
  }

  lemma {:induction false} NoOrphans(s: State, events: seq<Event>)
    requires Inv(s) && s.workers != [] && ValidRun(s, events) && Disciplined(s, events)
    ensures Orphans(s, events) == []
    decreases |events|
  {
    if events != [] {
      var e := events[0];
      assert AllExited(s) ==> s.workers[0] == Exited;
      StepInv(s, e);
      NoOrphans(Apply(s, e), events[1..]);
    }
  }

  /** Nothing is left behind on shutdown: when all workers have exited, the queue is empty and every
      task ever enqueued has run exactly once. */
  lemma Drained(n: nat, events: seq<Event>)
    requires n >= 1 && ValidRun(Init(n), events) && Disciplined(Init(n), events)
    requires AllExited(Execute(Init(n), events))
    ensures var s := Execute(Init(n), events);
            && s.tasks == [] && s.taken == Submitted(events) && s.finished == multiset(Submitted(events))
            && FinishCount(events) == |Submitted(events)|
  {
    InitInv(n);
    NoOrphans(Init(n), events);
    FinalQueue(n, events);
  }

  /** The size `hardware_concurrency` reports decides: a pool drains on every disciplined run exactly
      when it has at least one worker. */
  lemma DrainsIff(n: nat)
    ensures (forall events: seq<Event> |
               ValidRun(Init(n), events) && Disciplined(Init(n), events) && AllExited(Execute(Init(n), events)) ::
               Execute(Init(n), events).tasks == [])
       <==> n >= 1
  {
    if n >= 1 {
      forall events: seq<Event> |
        ValidRun(Init(n), events) && Disciplined(Init(n), events) && AllExited(Execute(Init(n), events))
        ensures Execute(Init(n), events).tasks == []
      {
        Drained(n, events);
      }
    } else {
      StrandedTask();
    }
  }

  /** Without workers the first task stays in the queue. */
  lemma StrandedTask()
    ensures exists events: seq<Event> ::
              && ValidRun(Init(0), events) && Disciplined(Init(0), events) && AllExited(Execute(Init(0), events))
              && Execute(Init(0), events).tasks != []
  {
    var e := Enqueue(0, None, None);
    var events, next := [e], Apply(Init(0), e);
    assert events[1..] == [];
    assert ValidRun(next, []) && Disciplined(next, []) && Execute(next, []) == next;
    assert ValidRun(Init(0), events) && Disciplined(Init(0), events);
    assert Execute(Init(0), events) == next && AllExited(next) && next.tasks == [0];
  }

  function EnqueueCount(events: seq<Event>): nat {
    if events == [] then 0 else (if events[0].Enqueue? then 1 else 0) + EnqueueCount(events[1..])
  }

  /** The worker steps still to come once everybody has been told to stop. */
  function Measure(s: State): nat {
    2 * |s.tasks| + Weigh(s.workers, 1, 2)
  }

  lemma StepMeasure(s: State, e: Event)
    requires Inv(s) && s.notified && Enabled(s, e)
    ensures Apply(s, e).notified
    ensures if e.Enqueue? then Measure(Apply(s, e)) == Measure(s) + 2 else Measure(Apply(s, e)) == Measure(s) - 1
  {
    match e
    case Take(w) => WeighUpdate(s.workers, w, Running(s.tasks[0]), 1, 2);
    case Exit(w) => WeighUpdate(s.workers, w, Exited, 1, 2);
    case Finish(w) => WeighUpdate(s.workers, w, Ready, 1, 2);
    case _ =>
  }

  /** Setting the flag leaves nothing behind in a pool that has workers, because none has exited yet. */
  lemma StopStep(s: State)
    requires Inv(s) && !s.stop
    ensures Inv(Apply(s, Stop)) && !s.notified && (s.workers != [] ==> LeftBehind(Apply(s, Stop), []))
  {
    StepInv(s, Stop);
    if s.workers != [] {
      assert s.workers[0] != Exited;
    }
  }

  lemma NotifyStep(s: State)
    requires Inv(s) && s.stop && !s.notified && (s.workers != [] ==> LeftBehind(s, []))
    ensures Inv(Apply(s, NotifyAll)) && (s.workers != [] ==> LeftBehind(Apply(s, NotifyAll), []))
  {
    hide Inv, LeftBehind;
    StepInv(s, NotifyAll);
    if s.workers != [] {
      StepLeftBehind(s, NotifyAll, []);
    }
  }

  lemma AllDone(s: State)
    requires Inv(s) && AllExited(s) && LeftBehind(s, [])
    ensures s.tasks == [] && s.taken == s.enqueued && s.finished == multiset(s.enqueued)
  {
    NoneRunning(s.workers);
  }

  /** A step after stop, up to and after the final notification, as long as a worker remains. */
  lemma StepAfterStop(s: State, e: Event)
    requires Inv(s) && s.stop && LeftBehind(s, []) && !AllExited(s) && Enabled(s, e) && !e.NotifyAll?
    ensures var next := Apply(s, e);
            && Inv(next) && next.stop && LeftBehind(next, [])
            && next.notified == s.notified && |next.workers| == |s.workers| && s.enqueued <= next.enqueued
            && (s.notified && !e.Enqueue? ==> Measure(next) < Measure(s))
  {
    hide Inv, LeftBehind, Measure;
    StepInv(s, e);
    StepLeftBehind(s, e, []);
    if s.notified {
      StepMeasure(s, e);
    }
  }

  /** After the final `notify_all`, a run is paid for exactly: each step but an enqueue lowers the
      measure by one, each enqueue raises it by two. Nobody sleeps any more. */
  lemma {:induction false} ShutdownAccount(s: State, events: seq<Event>)
    requires Inv(s) && s.notified && ValidRun(s, events)
    ensures var end := Execute(s, events);
            && |events| + Measure(end) == Measure(s) + 3 * EnqueueCount(events)
            && end.notified && NoneAsleep(end)
    decreases |events|
  {
    if events != [] {
      StepInv(s, events[0]);
      StepMeasure(s, events[0]);
      ShutdownAccount(Apply(s, events[0]), events[1..]);
    }
  }

  /** As long as a worker has not exited, some worker can take a step: it takes a task, exits, or
      finishes what it runs. */
  lemma ShutdownProgress(s: State)
    requires Inv(s) && s.notified
    ensures AllExited(s) <==> Measure(s) == 2 * |s.tasks|
    ensures AllExited(s) <==> !exists w: nat :: Enabled(s, Take(w)) || Enabled(s, Exit(w)) || Enabled(s, Finish(w))
  {
    if AllExited(s) {
      WeighZero(s.workers, 1, 2);
    } else {
      var w: nat :| w < |s.workers| && s.workers[w] != Exited;
      WeighPositive(s.workers, w, 1, 2);
      assert Enabled(s, Take(w)) || Enabled(s, Exit(w)) || Enabled(s, Finish(w));
    }
  }

  /** Shutdown terminates: without new tasks a run has at most as many steps as the measure says, and
      a run that cannot be continued has made all workers exit, so that every join returns. */
  lemma ShutdownTerminates(s: State, events: seq<Event>)
    requires Inv(s) && s.notified && ValidRun(s, events) && EnqueueCount(events) == 0
    ensures |events| <= Measure(s)
    ensures var end := Execute(s, events);
            (forall e: Event | e.Take? || e.Exit? || e.Finish? :: !Enabled(end, e)) ==> AllExited(end)
  {
    ShutdownAccount(s, events);
    RunInv(s, events);
    ShutdownProgress(Execute(s, events));
  }
}
